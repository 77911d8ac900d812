# cubitos: persistent homology of cubical complexes, modelled in Dafny

cubitos reads a point cloud and builds nested cubical complexes that cover it more and
more finely. It takes the boundary maps of each complex over the prime field Z_11 and
reduces them by Gaussian elimination, keeping track of the changes of basis. It then
turns the collapse of each complex onto the previous one into an induced map on
homology representatives ("Algorithm 1", `Module::addLevel`). From the chains of those
maps it computes a triangular table of nullities, corrects it twice and reads off the
persistence barcode ("Algorithm 2", `Module::computeBarcode`).

The model follows the repository file by file:

- field.dfy (`Field`): Z_P with P = 11, the prime `main.cc` instantiates; entries kept in [0, P)
- words.dfy (`Words`): 64-bit `size_t` / `bitset<64>` arithmetic, which wraps around
- bitset.dfy (`Bitsets`): the bits of a 64-bit word, shifts, `&`/`|`, the `config.h` constants, `+=`/`-=`/`*=`
- matrix.dfy (`Matrices`): the matrix values of `smatrix.h`: null sentinel, product, elementary operations, queries, and the algebra behind them
- smatrix.dfy (`SMatrices`): class `SMatrix`: the in-place mutators, each a loop proved equal to its value-level operation
- echelon.dfy (`Echelon`): row and column echelon forms as functions, `rank` and `nullity`
- reductions.dfy (`Reductions`): `rowReduce`, `columnReduce`, their wrappers and `simultaneousReduce` on `SMatrix` objects
- point.dfy (`Points`): `Point`: Z-order, truncation, centres, directions, `depthAsCenter`
- region.dfy (`Regions`): class `Region`: the run scan, `contains`, lazy subdivision, `containsInDepth`
- csimplex.dfy (`Simplices`): `CSimplex` order, faces and `differential`, class `CChain`, `checkSimplex` and `expansions`
- ccomplex.dfy (`CComplexes`): class `CComplex`: levels, `add`, `expand` with its collapsing maps, `getDifferentialMap`
- nullity.dfy (`NullityTables`): the nullity table of `computeBarcode`, its two correction passes, and how it is added to the barcode
- barcode.dfy (`Barcodes`): class `Barcode` and `add`
- module.dfy (`Persistence`): class `Module`: boundary and collapsing matrices, `addLevel`, `addToLevel`, `computeBarcode`

Code that the source changes in place (matrices, regions, complexes, chains, the
module, the barcode) becomes classes whose methods state their whole new state,
usually as a function of the old one. Pure code becomes functions. The properties the
source relies on are lemmas about those functions.

Where the source calls code that lies outside the repository, or that the repository does not define, the model supplies its own version:

- **Matrix product and rank.** LinBox and Givaro supply these in the source. The model
  uses the textbook product over Z_11 (`Matrices.Product`). Rank is the pivot count of
  the model's own row reduction (`Echelon.Rank`).
- **Reductions with a pivot count.** `module.h:93`, `module.h:102` and `module.h:112`
  call `rowReduce`, `simultaneousReduce` and `columnReduce` with a fifth argument, a
  pivot count. The repository's `algorithms/reductions.h` defines no such overloads.
  - The model returns the loop's final `i` for the row reduction (`RowReduceWithBasis`).
  - It returns the final `j` for the column reduction (`ColumnReduceWithBasis`).
  - `SimultaneousReduceIndexed` continues the row phase from the column pivot count
    and returns the count it ends at. The columns of R from the column pivot count on
    are then cycles, and the boundaries lie in the span of the columns of R before the
    returned count. That these columns are not themselves boundaries is not proved. The repository's `simultaneousReduce`
    (`algorithms/reductions.h:141`) restarts that phase at row 0. It is modelled as
    written by `SimultaneousReduce`.
- **The offset submatrix.** `module.h:147` calls `submatrix(rowOffset, colOffset)`. `smatrix.h`
  defines only `submatrix(rows, cols)`. The model takes the offset form to mean
  rows `r0..n-1` and columns `c0..m-1` (`Matrices.SubmatrixFrom`).
- **The region.** `Region::containsInDepth` is modelled in region.dfy. csimplex.dfy and
  ccomplex.dfy see it through a test on coordinate vectors (`Simplices.RegionTest`).
  `expand` is proved for any expansion function that agrees with the region's
  `checkSimplex` (`CComplexes.Realizes`).

Matrix entries are normalised into [0, P) when they are inserted. `smatrix.h:48` stores
values such as -1, which reach it from `CChain::operator-=` (`csimplex.cc:157-160`) through `module.h:37`.
`Field.IsZero` treats every multiple of P as zero.

## Model

| member | source | states |
|---|---|---|
| Field.Norm | smatrix.h:48 | the stored value lies in [0, P), is congruent to the inserted value, and equals it when it is already an element |
| Field.Inv | algorithms/reductions.h:37-39 | every nonzero element of Z_11 has an inverse: Mul(a, Inv(a)) == 1 |
| Field.EliminationCancels | algorithms/reductions.h:37-47 | adding c = -(a / pivot) times the pivot to a gives 0: the elimination step clears the entry |
| Words.WrapAdd | bitset_operators.h:6-10 | `lhs + rhs` is congruent to the integer sum mod 2^64 and equals it when there is no overflow |
| Words.WrapSub | bitset_operators.h:12-16 | `lhs - rhs` is congruent to the integer difference mod 2^64 and equals it when b <= a |
| Words.WrapMul | bitset_operators.h:18-22 | `lhs * rhs` is congruent to the integer product mod 2^64 and equals it when there is no overflow |
| Words.AddThenSub | bitset_operators.h:6-16 | (a + b) - b == a for all 64-bit a and b |
| Words.AddCommutes | bitset_operators.h:6-10 | adding b and then c equals adding c and then b |
| Words.FromNat | module.h:171 | a nullity stored into a `size_t` keeps its value modulo 2^64, and is unchanged below 2^64 |
| Bitsets.PlusAssign | bitset_operators.h:24-28 | `lhs += rhs` replaces exactly the lhs cell by WrapAdd(lhs, rhs) and returns the new value |
| Bitsets.MinusAssign | bitset_operators.h:30-34 | `lhs -= rhs` replaces exactly the lhs cell by WrapSub(lhs, rhs) and returns the new value |
| Bitsets.TimesAssign | bitset_operators.h:36-40 | `lhs *= rhs` replaces exactly the lhs cell by WrapMul(lhs, rhs) and returns the new value |
| Bitsets.ShiftRight | point.cc:50 | bit j of `x >> s` is bit j + s of x, and is clear when j + s >= 64 |
| Bitsets.ShiftLeft | point.cc:50 | bit j of `x << s` is bit j - s of x for s <= j < 64, and is clear otherwise |
| Bitsets.And | point.cc:97 | bit j of `x & y` is set iff it is set in both x and y |
| Bitsets.Or | point.cc:60 | bit j of `x \| y` is set iff it is set in x or in y |
| Bitsets.SingleBits | config.h:25-27 | SMALLONE has only bit 0 set, BIGONE only bit 63, and ALLONES has every bit below 64 set |
| Bitsets.BitsDetermine | config.h:20 | two 64-bit words with the same bits are equal |
| Matrices.Null | smatrix.h:35 | `zeroMatrix()` is well formed and null |
| Matrices.Zeros | smatrix.h:24-25 | `SMatrix(n, m)` is the n x m matrix of zeros |
| Matrices.Identity | smatrix.h:27-33 | `identity(n)` is n x n with 1 on the diagonal and 0 elsewhere |
| Matrices.ProductIdentity | smatrix.h:27-33 | the identity is neutral for the product on both sides |
| Matrices.MatMul | smatrix.h:37-44 | `mul` is null if either operand is null, and the textbook n x m product otherwise |
| Matrices.ProductAssoc | smatrix.h:37-44 | the product is associative |
| Matrices.Transpose | smatrix.h:147-155 | `transpose` of an n x m matrix is m x n, with entry (j, i) equal to entry (i, j) of the argument |
| Matrices.TransposeTwice | smatrix.h:147-155 | transposing twice gives back the matrix |
| Matrices.Submatrix | smatrix.h:157-166 | `submatrix(rows, cols)` is \|rows\| x \|cols\|, with entry (i, j) equal to entry (rows[i], cols[j]) |
| Matrices.SubmatrixCols | smatrix.h:168-177 | `submatrixCols(cols)` keeps every row, and its entry (i, j) is entry (i, cols[j]) |
| Matrices.SubmatrixFrom | module.h:147-149 | the offset submatrix from (r0, c0) is (n - r0) x (m - c0), with entry (i, j) equal to entry (r0 + i, c0 + j) |
| Matrices.GetCol | smatrix.h:139-145 | `getCol(col)` is the n x 1 matrix whose entry in row i is entry (i, col) |
| Matrices.Insert | smatrix.h:48 | `insert` sets entry (i, j) to v reduced into Z_P and keeps every other entry and the shape |
| Matrices.SwapTwice | smatrix.h:74-88 | swapping rows a and b twice, or columns a and b twice, restores the matrix |
| Matrices.RowCombinedInverse | smatrix.h:97-102 | a row combine with coefficient c is undone by the combine with -c |
| Matrices.ColCombinedInverse | smatrix.h:90-95 | a column combine with coefficient c is undone by the combine with -c |
| Matrices.ProductRowCombined | smatrix.h:97-102 | combining rows of X and then multiplying equals combining the rows of X * Y |
| Matrices.ProductColCombined | smatrix.h:90-95 | combining columns of Y after the product equals the product with the combined Y |
| Matrices.ProductRowSwapped | smatrix.h:82-88 | a row swap commutes with multiplication on the right |
| Matrices.ProductColSwapped | smatrix.h:74-80 | a column swap commutes with multiplication on the left |
| Matrices.TransferCombine | algorithms/reductions.h:44-51 | combining columns of X equals combining the opposite rows of Y: X * Y is preserved when both happen |
| Matrices.TransferSwap | algorithms/reductions.h:29-34 | swapping columns of X and the same rows of Y preserves X * Y |
| Matrices.CombineStep | algorithms/reductions.h:44-47 | a combine applied to E and the opposite combine applied to F keep E and F inverse to each other |
| Matrices.SwapStep | algorithms/reductions.h:29-34 | the same swap applied to the rows of E and the columns of F keeps E and F inverse to each other |
| Matrices.FirstNonzeroCol | smatrix.h:104-122 | the first column from j on with a nonzero entry in row i: every column before it is zero there |
| Matrices.Pivots | smatrix.h:104-122 | `pivots()` returns strictly increasing row indices of the matrix |
| Matrices.EmptyCols | smatrix.h:124-137 | `emptyCols()` holds exactly the all-zero columns, in increasing order |
| SMatrices.SMatrix.constructor | smatrix.h:24-25 | `SMatrix(n, m)` is the n x m zero matrix (0 x 0 is the null matrix) |
| SMatrices.SMatrix.MakeIdentity | smatrix.h:27-33 | the fresh matrix is the identity |
| SMatrices.SMatrix.ZeroMatrix | smatrix.h:35 | the fresh matrix is the null matrix |
| SMatrices.SMatrix.MulNew | smatrix.h:37-44 | the fresh matrix is MatMul of the operands |
| SMatrices.SMatrix.Insert | smatrix.h:48 | exactly entry (i, j) changes, to v reduced into Z_P |
| SMatrices.SMatrix.AddAt | smatrix.h:50-53 | exactly entry (i, j) changes, to its old value plus v, reduced |
| SMatrices.SMatrix.SubAt | smatrix.h:55-58 | exactly entry (i, j) changes, to its old value minus v, reduced |
| SMatrices.SMatrix.ScaleRow | smatrix.h:62-66 | the matrix becomes the old one with row `row` scaled by c |
| SMatrices.SMatrix.ScaleCol | smatrix.h:68-72 | the matrix becomes the old one with column `col` scaled by c |
| SMatrices.SMatrix.ColSwap | smatrix.h:74-80 | the matrix becomes the old one with the two columns exchanged |
| SMatrices.SMatrix.RowSwap | smatrix.h:82-88 | the matrix becomes the old one with the two rows exchanged |
| SMatrices.SMatrix.ColCombine | smatrix.h:90-95 | column `addTo` becomes itself plus c times column `scaleCol`; nothing else changes |
| SMatrices.SMatrix.RowCombine | smatrix.h:97-102 | row `addTo` becomes itself plus c times row `scaleRow`; nothing else changes |
| SMatrices.SMatrix.RightMulIn | smatrix.h:179 | the matrix becomes MatMul(old value, rhs) |
| SMatrices.SMatrix.LeftMulIn | smatrix.h:181 | the matrix becomes MatMul(lhs, old value) |
| Echelon.PivotRow | algorithms/reductions.h:22-24 | the scan stops at the first row from i on whose entry in column j is nonzero, or at n; every row it skips is zero in that column |
| Echelon.EchelonTurn | algorithms/reductions.h:21-56 | one turn of the pivot loop: j advances; i advances exactly when a pivot is found; with no pivot the matrix is unchanged |
| Echelon.EliminateBelowSpec | algorithms/reductions.h:40-53 | with a nonzero pivot, the elimination loop from row o makes every entry of the pivot column from row o down zero; rows above o are untouched, and so is every column where the pivot row is zero |
| Echelon.EliminateRightTransposed | algorithms/reductions.h:85-98 | the column elimination is the row elimination of the transpose |
| Echelon.RowEchelonCorrect | algorithms/reductions.h:21-56 | the row reduction yields row echelon form: rows 0 .. r-1 are nonzero with strictly increasing leading columns, and every row from r on is zero |
| Echelon.ColEchelonCorrect | algorithms/reductions.h:65-101 | the column reduction yields column echelon form: columns 0 .. r-1 are nonzero with strictly increasing leading rows, and every later column is zero |
| Echelon.RowEchelonFromStart | module.h:102 | a row reduction started at row b leaves the rows above b untouched, and puts rows b .. n-1 in echelon form |
| Echelon.PivotsOfEchelon | smatrix.h:104-122 | on a row echelon matrix with r nonzero rows, `pivots()` returns exactly the rows 0 .. r-1 |
| Echelon.Rank | smatrix.h:183-190 | rank <= min(n, m), and 0 for the null matrix |
| Echelon.Nullity | smatrix.h:192-197 | nullity = m - rank for a non-null matrix, and 0 for the null matrix |
| Reductions.FindPivotRow | algorithms/reductions.h:22-24 | the loop's result is the first nonzero row from i in column j, or n |
| Reductions.FindPivotCol | algorithms/reductions.h:66-68 | the loop's result is the first nonzero column from j in row i, or m |
| Reductions.RowPivotStep | algorithms/reductions.h:28-55 | the swap and elimination of one pivot perform the echelon turn while the tracking invariant holds |
| Reductions.RowEliminateTracked | algorithms/reductions.h:40-53 | the elimination loop adds the multiple of the pivot row to each later row (EliminateBelow), doing the matching combines on P, P_inv and B, so the tracking invariant is kept |
| Reductions.RowReduce | algorithms/reductions.h:15-57 | A becomes the row echelon form from row `start` of old A, and the pivot count is returned; for some inverse pair E, E^-1: A = E * A_old, P = E * P_old and P_inv = P_inv_old * E^-1; when complementary, B = B_old * E^-1, so B * A is preserved; nothing changes when no pivot is found |
| Reductions.ColEliminateTracked | algorithms/reductions.h:85-98 | the elimination loop adds the multiple of the pivot column to each later column (EliminateRight), doing the matching combines on Q, Q_inv and B, so the tracking invariant is kept |
| Reductions.ColumnReduce | algorithms/reductions.h:60-102 | A becomes the column echelon form of old A, and the pivot count is returned; for some inverse pair F, F^-1: A = A_old * F, Q = Q_old * F and Q_inv = F^-1 * Q_inv_old; when complementary, B = F^-1 * B_old, so A * B is preserved; nothing changes when no pivot is found |
| Reductions.ColumnReduceComplementary | algorithms/reductions.h:104-107 | the complementary column reduction leaves A in column echelon form and preserves A * B |
| Reductions.RowReduceComplementary | algorithms/reductions.h:118-121 | the complementary row reduction leaves A in row echelon form and preserves B * A |
| Reductions.ColumnReduceWithBasis | algorithms/reductions.h:109-116 | Q starts at the identity; afterwards A = A_old * Q, Q * Q_inv = Q_inv * Q = I, and A is in column echelon form with the returned pivot count |
| Reductions.RowReduceWithBasis | algorithms/reductions.h:123-130 | P starts at the identity; afterwards A = P * A_old, P * P_inv = P_inv * P = I, and A is in row echelon form with the returned pivot count |
| Reductions.SimultaneousReduce | algorithms/reductions.h:132-142 | with A.m = B.n: A = A_old * R, B = R_inv * B_old, R * R_inv = R_inv * R = I, so A * B is preserved |
| Reductions.SimultaneousReduceIndexed | module.h:102 | the bookkeeping of SimultaneousReduce, and: A ends as the column echelon form A_old * F of the column phase, with cycleIndex pivots, so A is zero from column cycleIndex on; B ends as the row reduction of F^-1 * B_old started at row cycleIndex, in row echelon form from there, with the returned index as its pivot count; cycleIndex <= index <= B.n |
| Reductions.ColumnPhaseKept | algorithms/reductions.h:140-141 | the row phase started at the column pivot count leaves the column-reduced matrix unchanged (its change of basis is the identity outside the block it touches) |
| Points.FromCoors | point.cc:7-9 | `Point(coors)` records dim = \|coors\| |
| Points.EqIsEquality | point.cc:32-44 | `==` holds iff the points are equal (same dimension and coordinates), and `!=` is its negation |
| Points.LessIsZOrder | point.cc:19-30 | `p < q` is the lexicographic order of the interleaved bits, from the top plane down and by coordinate within a plane |
| Points.LessIrreflexive | point.cc:19-30 | no point is below itself |
| Points.LessTrichotomy | point.cc:19-42 | for points of one dimension exactly one of p < q, q < p and p == q holds |
| Points.LessTransitive | point.cc:19-30 | `<` is transitive |
| Points.Truncate | point.cc:46-53 | `truncate(n)` is a well formed point with as many coordinates as the original |
| Points.TruncateBits | point.cc:46-53 | `truncate(n)` keeps the top n bits of every coordinate and clears the rest |
| Points.TruncateTwice | point.cc:46-53 | truncating twice equals truncating once |
| Points.MakeCenter | point.cc:55-63 | below depth 64, `makeCenter(d)` has the top d bits of the point and bit 63 - d set, and nothing else; at depth 64 the point is unchanged; beyond it every coordinate is 0 |
| Points.DepthOfCenter | point.cc:55-63 | for a point with at least one coordinate, `makeCenter(d).depthAsCenter() == d` |
| Points.DepthAsCenter | point.cc:106-120 | the result is 63 - i for the lowest bit position i set in every coordinate, and 0 when there is none |
| Points.HasCenterIff | point.cc:65-77 | `hasCenter(c, d)` holds iff both points truncate to the same point |
| Points.EqualsTruncatedIff | point.cc:79-91 | `equalsTruncated(rhs, d)` holds iff rhs is the truncation of the point; in particular `p.equalsTruncated(p.truncate(d), d)` holds |
| Points.DirectionBit | point.cc:95-97 | coordinate k is a direction iff bit 63 - depth is clear |
| Points.Directions | point.cc:93-103 | the two lists get appended the directions and the nondirections, each in increasing order |
| Points.SplitPartitions | point.cc:93-103 | the direction and nondirection lists have \|coors\| entries together; with the membership stated by Dirs and NonDirs, every index is in exactly one of them |
| Regions.MakeCell | region.cc:8-20 | the corner is the first point truncated to the depth; the run is non-empty and ends at most at `end`; the region is degenerate iff the run has one point, which is then the stored centre |
| Regions.MakeCellSpec | region.cc:11-13 | every point of the run is contained, and the point that stops the run is not: the run is maximal |
| Regions.Region.constructor | region.cc:8-20 | the fields are MakeCell of the arguments and the cache is empty |
| Regions.Region.ScanRun | region.cc:12-13 | the run scan's loop stops where RunFrom does |
| Regions.RunFromSpec | region.cc:12-13 | every point before the stop is inside and the one at the stop (if before `end`) is not |
| Regions.ContainsIff | region.cc:22-24 | `contains(p)` holds iff p truncated to the depth is the corner |
| Regions.Subdivision | region.cc:49-56 | every subregion lies inside [it, end), is non-empty, and is the region of the given depth that starts at its first point |
| Regions.SubdivisionCovers | region.cc:49-56 | the subregions are non-empty and consecutive; they start at `it` and end at `end` |
| Regions.Region.Subdivide | region.cc:49-56 | the cache is extended by exactly the subdivision, and the region's fields are unchanged |
| Regions.Region.GetSubregions | region.cc:42-47 | the cache is the subdivision afterwards, and a filled cache is returned unchanged |
| Regions.Region.FindChild | region.cc:34-38 | the loop finds the first subregion containing p, or the count if none does |
| Regions.Region.ContainsInDepth | region.cc:27-40 | the result is InDepth: true at the region's own depth; the truncation test in the degenerate case; otherwise the answer of the first subregion containing p, or false |
| Simplices.SplitIsPartition | csimplex.cc:9-12 | the constructor's direction lists are increasing and partition the coordinate indices by the direction bit |
| Simplices.EqIsEquality | csimplex.cc:140-148 | `==` holds iff dim, depth and centre are all equal |
| Simplices.LessTrichotomy | csimplex.cc:124-138 | the order on (dim, depth, centre) is a strict total order: exactly one of s < t, t < s, s == t |
| Simplices.LessTransitive | csimplex.cc:124-138 | the order is transitive |
| Simplices.CChain.constructor | csimplex.cc:150 | a new chain is empty |
| Simplices.CChain.Plus | csimplex.cc:152-155 | `+= s` increments the coefficient of s by 1 and changes nothing else |
| Simplices.CChain.Minus | csimplex.cc:157-160 | `-= s` decrements the coefficient of s by 1 and changes nothing else |
| Simplices.Face | csimplex.cc:108-116 | a face is a well formed simplex of dimension one lower at the same depth |
| Simplices.FaceInjective | csimplex.cc:108-116 | for 1 <= depth < 64, the two faces across each direction are different from each other and from every other face: Face(s, u, up) == Face(s, v, vp) iff u == v and up == vp |
| Simplices.Differential | csimplex.cc:101-122 | the loop builds a fresh chain equal to DifferentialOf(s): the accumulated terms of every direction |
| Simplices.AddFaces | csimplex.cc:107-119 | one pass of the loop adds the two faces of one direction and flips `rotate` |
| Simplices.DifferentialSpec | csimplex.cc:101-122 | the signed terms sum to 0; the keys are exactly the faces across the directions, with the coefficient the loop accumulates; for 1 <= depth < 64, the face on the `+` side of direction u gets +1 when u is even and -1 when u is odd, and the `-` face the opposite |
| Simplices.RecNonDirSome | csimplex.cc:76-99 | `checkSimplexRecNonDir` succeeds iff some choice of sides along the nondirections reaches a point the region test accepts |
| Simplices.RecDirAll | csimplex.cc:54-74 | `checkSimplexRecDir` succeeds iff the nondirection test succeeds for every choice of sides along the directions |
| Simplices.CheckSimplexMeaning | csimplex.cc:46-99 | `checkSimplex` holds iff for every vertex choice along the directions some choice along the nondirections lands in the region |
| Simplices.CheckSimplexRecNonDir | csimplex.cc:76-99 | the recursion returns the nondirection test and leaves the shared coordinate buffer as it found it |
| Simplices.CheckSimplexRecDir | csimplex.cc:54-74 | the recursion returns the direction test and leaves the shared coordinate buffer as it found it |
| Simplices.CheckSimplex | csimplex.cc:46-52 | the result is CheckSimplexF against the region's test, and the region's fields are unchanged |
| Simplices.ExpansionsRec | csimplex.cc:24-44 | the recursion appends exactly ExpansionsFrom(...) and restores the coordinate buffer |
| Simplices.Expansions | csimplex.cc:14-22 | the result is ExpansionsOf(s, region test) |
| Simplices.ExpansionsOfSound | csimplex.cc:29-34 | every expansion is one level deeper, at least as large, in the same space, and passes `checkSimplex` |
| CComplexes.CComplex.constructor | ccomplex.cc:8 | the default complex has dimension 0, depth 0 and no levels |
| CComplexes.CComplex.WithDepth | ccomplex.cc:9-14 | `CComplex(depth, region)` has dimension 0 and one empty level |
| CComplexes.CComplex.Add | ccomplex.cc:16-23 | dim becomes max(dim, s.dim); the levels are grown with empty ones and s is appended to level s.dim, the other levels unchanged |
| CComplexes.Added | ccomplex.cc:16-23 | the value of `add`: levels up to s.dim exist, s is appended at its level, every other level is unchanged |
| CComplexes.AddedAllContent | ccomplex.cc:40-41 | adding a sequence of simplices grows the levels to its largest dimension and appends to each level exactly the added simplices of that dimension, in order |
| CComplexes.CComplex.NumSimplicesIn | ccomplex.cc:25-30 | 0 above dim, and the level's size otherwise |
| CComplexes.CComplex.GetCollapsingMap | ccomplex.cc:91-97 | the stored map for d, or the empty map when none is stored |
| CComplexes.Sort | ccomplex.cc:50-51 | sorting keeps the multiset of simplices |
| CComplexes.SortSorted | ccomplex.cc:50-51 | the sorted level is ordered: no simplex is below one that comes before it |
| CComplexes.Find | ccomplex.cc:53-57 | the position `std::find` returns: the first index holding the simplex, or the level's size |
| CComplexes.Collapse | ccomplex.cc:52-59 | every key of the final map is the first position of a simplex of the temporary map, whose value it carries, and every simplex of the temporary map gets a key |
| CComplexes.CComplex.Expand | ccomplex.cc:32-70 | the expansion has depth + 1 and the same region; for each d its level d holds exactly the expansions of dimension d of all simplices (as a multiset), sorted; a collapsing map is pushed for each old level L the expanded complex reaches by then (mapLevels, in increasing order); each of its keys is the first position in the sorted level of an expansion of the simplex it maps to, and every same-dimension expansion of a level-L simplex v has its first position as a key, mapped to v or a later simplex |
| CComplexes.CComplex.GetDifferentialMap | ccomplex.cc:72-89 | for d > 0: (i, j) is a key iff face j of level d - 1 occurs in the differential of simplex i of level d, and its value is that coefficient |
| CComplexes.MarkFace | ccomplex.cc:80-84 | the inner loop sets (i, j) to c for every position j holding the face, and keeps every other entry |
| NullityTables.Chain | module.h:172-173 | the chain product of the maps j .. i is well formed, and is non-null only when map j is |
| NullityTables.RawTable | module.h:169-181 | the raw table is triangular with one row per depth |
| NullityTables.NullChainCopies | module.h:174-176 | once the chain product is null, it stays null further left and every entry to the left copies the entry at j + 1 |
| NullityTables.CorrectedRowSums | module.h:183-191 | the first pass is inverted by summing: the suffix sum from c of a corrected row gives back the original entry |
| NullityTables.DifferencedAt | module.h:193-199 | after the second pass each entry is the entry less the one below it, and the last row is unchanged |
| NullityTables.DifferencedColumnSums | module.h:193-199 | the second pass is inverted by summing the column from row i down: the original entry comes back |
| NullityTables.CorrectRow | module.h:184-190 | the loop over one row computes CorrectedRow |
| NullityTables.FirstPass | module.h:183-191 | the first correction pass computes Corrected |
| NullityTables.SubtractRow | module.h:194-198 | one pass of the outer loop subtracts row i from every row above it, entry by entry |
| NullityTables.SecondPass | module.h:193-199 | the second correction pass computes Differenced |
| NullityTables.AddRow | module.h:202-204 | adding one row of the table adds its entries in order |
| NullityTables.AddTable | module.h:201-205 | adding the whole table adds its rows in order |
| NullityTables.TableBars | module.h:201-205 | added into an empty or absent dimension, a triangular table yields exactly the bars (i, j) with j <= i < \|D\|, each with multiplicity D[i][j]; the other dimensions are unchanged and the list grows to dim + 1 |
| Barcodes.Barcode.constructor | barcode.cc:10 | a new barcode has exactly one dimension map, and it is empty |
| Barcodes.Barcode.Add | barcode.cc:12-20 | the bars become AddBars of the old bars |
| Barcodes.Grow | barcode.cc:14-17 | the list grows to at least `len` maps; old maps are kept and new maps are empty |
| Barcodes.AddGrows | barcode.cc:14-17 | `add` grows the list to at least dim + 1 maps, and the new maps are empty except for the bar added |
| Barcodes.AddIncrements | barcode.cc:19 | the multiplicity of (i, j) grows by k, and the key exists afterwards even when k is 0 |
| Barcodes.AddFrames | barcode.cc:12-20 | every other dimension and every other key are unchanged |
| Barcodes.AddCommutes | barcode.cc:19 | two `add` calls commute |
| Persistence.Coefficient | module.h:36-37 | the inserted coefficient is the face's coefficient in the differential, reduced, and 0 for a simplex that is not a face |
| Persistence.BoundaryEntry | module.h:31-41 | the boundary matrix is count(d-1) x count(d), with the coefficient of face j in simplex i at (j, i) |
| Persistence.Module.DiffMat | module.h:31-41 | `diffMat(c, d)` is the boundary matrix of the complex: count(d-1) x count(d), with the coefficient of face j in simplex i at (j, i) |
| Persistence.CollapsingMatrix | module.h:44-60 | null iff the domain is empty; otherwise max(1, image count) x domain count, with 1 exactly at (cm[c], c) for mapped in-range columns c |
| Persistence.CollapsingColumns | module.h:55-57 | each column of the collapsing matrix holds at most one 1 |
| Persistence.Module.GetCollapsingMatrix | module.h:44-60 | the fresh matrix is CollapsingMatrix of the domain's collapsing map and counts |
| Persistence.InducedMapAt | module.h:63-69 | the stored map of dimension dim at that depth, or null when the depth or the dimension is out of range |
| Persistence.Module.GetInducedMap | module.h:63-69 | the same on the module's depths |
| Persistence.Module.constructor | module.h:19-28 | one depth with one dimension: identity bases of size 1, a 1 x 1 zero induced map and index 0 |
| Persistence.Module.Default | module.h:18 | no depths and a complex without levels |
| Persistence.Module.ReduceFirst | module.h:91-97 | R_inv becomes the basis of dimension 0 that row-reduces d_1: R_inv * d_1 is the echelon form of d_1, with its rank as index, and R, R_inv are inverse to each other; B is left holding R_inv * d_1 for the next dimension |
| Persistence.Module.ReduceMiddle | module.h:100-109 | with the carried B = R_inv' * d_dim (R_inv' the basis of dimension dim - 1): R and R_inv are inverse, B * R is the column echelon form of B, and R_inv * d_{dim+1} is in row echelon form from that form's pivot count, with the stored index as its pivot count (MiddleReduces); B becomes R_inv * d_{dim+1} for the next step |
| Persistence.MiddleCycles | module.h:100-109 | for a middle dimension reduced as above, d_dim * R is zero from the column pivot count on: those columns of R are cycles |
| Persistence.Module.ReduceTop | module.h:111-116 | R becomes the basis of the top dimension that column-reduces the top boundary: d_top * R is its column echelon form, with its rank as index, and R, R_inv are inverse to each other |
| Persistence.Module.ReduceBoundaries | module.h:89-124 | the new depth holds one pair of inverse bases per level (Reduces): the identity with index 0 for a complex of vertices only; otherwise the row reduction of d_1 for dimension 0, for each middle dimension the simultaneous reduction against the basis of the dimension below (MiddleReduces), and the column reduction of the top boundary; every induced map is still null |
| Persistence.InducedMapOf | module.h:126-151 | null iff the new homology is trivial (which covers a null collapsing matrix); otherwise a zero row when the previous homology is trivial or absent; otherwise the offset submatrix of prev.R_inv * M * cur.R; the shape matches the homology counts |
| Persistence.Module.InduceMap | module.h:127-150 | the loop body computes InducedMapOf for one dimension |
| Persistence.Module.InduceMaps | module.h:126-151 | every dimension of the new depth gets its InducedMapOf, so the new depth is InducedFrom the last one |
| Persistence.NextDepthOk | module.h:126-153 | a depth that Reduces its complex and is InducedFrom the previous one keeps every stored dimension consistent and follows the previous depth |
| Persistence.Module.AddLevel | module.h:78-154 | exactly one depth is appended and the earlier ones are kept; maxDim becomes the maximum of its old value and the new complex's dimension; the new complex is the expansion of the old one and the new depth reduces it (Reduces: dimension 0, every middle dimension against the one below, and the top) and is induced from the previous depth |
| Persistence.Module.AddToLevel | module.h:71-75 | afterwards depth < \|depths\|, the earlier depths are kept, and nothing changes if that already held |
| Persistence.Module.RawRow | module.h:170-180 | row i of the raw table: entry c is the nullity of maps c .. i multiplied together, or the copy once that product is null |
| Persistence.Module.NullityTable | module.h:164-181 | the table the loops build is RawTable of the induced maps |
| Persistence.Expected | module.h:183-199 | the corrected table of one dimension is triangular with one row per depth |
| Persistence.ExpectedBars | module.h:201-205 | adding the corrected tables of dimensions 0 .. top gives exactly the bars (i, j) with j <= i < n in each, with the table's entry as multiplicity |
| Persistence.TalliesHold | module.h:162-206 | the tables of all dimensions added one after another give exactly the bars each table holds, every (dim, i, j) once |
| Persistence.Module.AddDimension | module.h:163-205 | one pass of the dimension loop: builds, corrects and adds the table of that dimension |
| Persistence.Module.ComputeBarcode | module.h:157-209 | the fresh barcode has, for each dim <= maxDim, exactly the bars (i, j) with j <= i < \|depths\|, each with the entry of that dimension's corrected nullity table |

## Left out

- Givaro's `Modular<double>` storage and LinBox's product and rank (`smatrix.h:42`,
  `smatrix.h:188`): replaced by integer entries in [0, 11), the textbook product and
  the model's own echelon rank. `Echelon.Rank` is not proved independent of the
  elimination order.
- `SMatrix::operator<<`, `Module::operator<<`, the `CSimplex`, `CChain`, `CComplex`,
  `Point` and `Region` printers, `Barcode::tikzbarcode` and `Barcode::operator<<`:
  text output.
- `Point(vector<float>)`: floating-point input conversion.
- `main.cc`, `cubitos.h` and the `config.h` platform test: I/O, argument parsing and
  a wrapper; NUMBITS is fixed at 64.
- `Barcode::maxLen_`: the field is never used.
- `Region()`, the default constructor: it only makes a placeholder.
- Every `uint8_t` depth in `point.cc` and `region.cc` is a natural below 256.
  `Regions.Next` models the wrap of `depth_ + 1`.
- The stored bases R and R_inv are kept as matrix values in each depth, not as
  `SMatrix` objects.
- Persistence.Module.Valid: it keeps every stored pair of bases square and sized to
  their level. It does not keep that they are inverse to each other; `Reduces` states
  that for the depth just built.
- Persistence.Module.constructor: `Valid()` is promised only when the complex is a
  single vertex in a valid region (`Persistence.Startable`). That is the only complex
  whose sizes match the 1 x 1 bases the source stores.
- Persistence.Module.Default: the source leaves `maxDim_` uninitialised there; the model
  sets it to 0.
- Persistence.Module.ComputeBarcode: the result is stated against the tables of the
  depths on entry (`old(depths)`). The barcode loops are static methods, like
  `Persistence.Module.BarcodeOf` and `Persistence.Module.AddDimensions`, that take the
  depths as a value. That keeps the proof small; the method changes no field.
- Persistence.Expected: the second correction pass subtracts unsigned values. The model
  keeps their 64-bit wrap-around (`Words.WrapSub`). It does not prove that the values
  stay non-negative, since the source does not promise it.
- Persistence.CollapsingMatrix: a collapsing-map entry whose column or row is out of
  range is skipped, where the source writes outside the matrix (smatrix.h:48). This
  can happen: when a level of the old complex is not reached by the expansion, the
  later collapsing maps are shifted to lower indexes (see the next line), and
  `getCollapsingMap(d)` then returns the map of a higher level. Its keys and values
  index that higher level and can exceed the matrix that module.h:54-56 fills. For a
  complex whose every level is reached the map of dimension d is the map of level d,
  and its entries fit (`CComplexes.CComplex.Expand`, `CollapsesOk`). The model does
  not capture the out-of-bounds write in the shifted case.
- CComplexes.CComplex.Expand: `expand` pushes a collapsing map only for the old levels
  that the expansion reaches. A level with no expansion of its own dimension at that
  point therefore shifts every later map to a lower index than its level. The model
  records the level of each map (`mapLevels`) and states the maps against it. The
  expansion function is a ghost parameter that must agree with the region's
  `checkSimplex`.
- CComplexes.Sort: `std::sort` is modelled by an insertion sort on values, specified
  by its multiset and order; the in-place algorithm is not modelled.
- The region test seen by `CSimplex` is `Region::containsInDepth` at the depth
  `depthAsCenter` gives, read at the time of the call. That the cache it fills does
  not change later answers is carried by `Regions.Region.Valid`.
- Helper methods split out of the source's loops (`Persistence.Module.Step`,
  `Commit`, `NextDepth`, `ExpandComplex`, `RawStep`, `AddDimensions`, `AddDimension`,
  `BarcodeOf`; `CComplexes.ExpandNext`, `ExpandStep`, `ExpandLevel`, `ExpandSimplex`,
  `SortAndCollapse`, `SortRemaining`, `ResortLevel`; the `Reductions` step methods)
  each carry one loop or one loop body of the source function they are named after.
- NullityTables.RawTable: the raw entries are not proved non-decreasing as j
  decreases. That needs nullity(X * Y) >= nullity(Y), which in turn needs the rank to
  be independent of the elimination order.
