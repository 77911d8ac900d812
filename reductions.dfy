/** Gaussian elimination with tracked change of basis.

    Each reduction works in place on SMatrix objects. Its loops follow the
    value-level elimination of `Echelon` step for step, and a ghost pair
    (E, Einv) of mutually inverse matrices records the elementary operations
    applied so far: rows of A and P are combined by E on the left, and
    columns of P_inv and of the complementary matrix B by Einv on the right. */
module Reductions {
  import opened Field
  import opened Matrices
  import opened Echelon
  import opened SMatrices

  /** Before any operation, E = Einv = I tracks every matrix. */
  lemma RowTracksStart(A: SMatrix, B: SMatrix, P: SMatrix, Pinv: SMatrix, complementary: bool)
    requires A.Valid() && B.Valid() && P.Valid() && Pinv.Valid()
    requires P.n == A.n && Pinv.m == A.n && (complementary ==> B.m == A.n)
    ensures RowTracks(A, B, P, Pinv, complementary, Identity(A.n), Identity(A.n), A.Value(), B.Value(), P.Value(), Pinv.Value())
  {
    ProductIdentity(A.Value());
    ProductIdentity(P.Value());
    ProductIdentity(Pinv.Value());
    ProductIdentity(B.Value());
    ProductIdentity(Identity(A.n));
  }

  /** Before any operation, F = Finv = I tracks every matrix. */
  lemma ColTracksStart(A: SMatrix, B: SMatrix, Q: SMatrix, Qinv: SMatrix, complementary: bool)
    requires A.Valid() && B.Valid() && Q.Valid() && Qinv.Valid()
    requires Q.m == A.m && Qinv.n == A.m && (complementary ==> B.n == A.m)
    ensures ColTracks(A, B, Q, Qinv, complementary, Identity(A.m), Identity(A.m), A.Value(), B.Value(), Q.Value(), Qinv.Value())
  {
    ProductIdentity(A.Value());
    ProductIdentity(Q.Value());
    ProductIdentity(Qinv.Value());
    ProductIdentity(B.Value());
    ProductIdentity(Identity(A.m));
  }

  /** The pivot search of `rowReduce`: the first row at or below i whose entry in
      column j is nonzero, or A.n when there is none. */
  method FindPivotRow(A: SMatrix, i: nat, j: nat) returns (nonzeroRow: nat)
    requires A.Valid() && i <= A.n && j < A.m
    ensures i <= nonzeroRow <= A.n
    ensures forall k | i <= k < nonzeroRow :: IsZero(A.e[k][j])
    ensures nonzeroRow < A.n ==> !IsZero(A.e[nonzeroRow][j])
    ensures nonzeroRow == PivotRow(A.Value(), i, j)
  {
    nonzeroRow := i;
    while nonzeroRow < A.n && IsZero(A.Get(nonzeroRow, j))
      invariant i <= nonzeroRow <= A.n
      invariant forall k | i <= k < nonzeroRow :: IsZero(A.e[k][j])
    {
      nonzeroRow := nonzeroRow + 1;
    }
    PivotRowIs(A.Value(), i, j, nonzeroRow);
  }

  /** The pivot search of `columnReduce`: the first column at or after j whose entry
      in row i is nonzero, or A.m when there is none. */
  method FindPivotCol(A: SMatrix, i: nat, j: nat) returns (nonzeroCol: nat)
    requires A.Valid() && i < A.n && j <= A.m
    ensures j <= nonzeroCol <= A.m
    ensures forall k | j <= k < nonzeroCol :: IsZero(A.e[i][k])
    ensures nonzeroCol < A.m ==> !IsZero(A.e[i][nonzeroCol])
    ensures nonzeroCol == PivotRow(Transpose(A.Value()), j, i)
  {
    nonzeroCol := j;
    while nonzeroCol < A.m && IsZero(A.Get(i, nonzeroCol))
      invariant j <= nonzeroCol <= A.m
      invariant forall k | j <= k < nonzeroCol :: IsZero(A.e[i][k])
    {
      nonzeroCol := nonzeroCol + 1;
    }
    PivotRowIs(Transpose(A.Value()), j, i, nonzeroCol);
  }

  /** The bookkeeping of a row reduction: A and P are E times their starting values,
      P_inv (and B when `complementary`) are their starting values times Einv, and
      E, Einv are inverse to each other. */
  ghost predicate RowTracks(A: SMatrix, B: SMatrix, P: SMatrix, Pinv: SMatrix, complementary: bool,
                            E: Matrix, Einv: Matrix, A0: Matrix, B0: Matrix, P0: Matrix, Pinv0: Matrix)
    reads A, B, P, Pinv
  {
    && A.Valid() && B.Valid() && P.Valid() && Pinv.Valid()
    && Wf(A0) && Wf(B0) && Wf(P0) && Wf(Pinv0)
    && InversePair(E, Einv, A.n)
    && A0.n == A.n && P0.n == A.n && Pinv0.m == A.n
    && IsProduct(A.Value(), E, A0) && IsProduct(P.Value(), E, P0) && IsProduct(Pinv.Value(), Pinv0, Einv)
    && (complementary ==> B0.m == A.n && IsProduct(B.Value(), B0, Einv))
  }

  /** Lines that swap the pivot row into place: rows a, b of A and P, columns a, b
      of P_inv and (when `complementary`) of B. */
  method RowSwapTracked(A: SMatrix, B: SMatrix, P: SMatrix, Pinv: SMatrix, complementary: bool, a: nat, b: nat,
                        ghost E: Matrix, ghost Einv: Matrix, ghost A0: Matrix, ghost B0: Matrix, ghost P0: Matrix, ghost Pinv0: Matrix,
                        ghost start: nat)
    returns (ghost E': Matrix, ghost Einv': Matrix)
    requires A != P && A != Pinv && P != Pinv && B != A && B != P && B != Pinv
    requires RowTracks(A, B, P, Pinv, complementary, E, Einv, A0, B0, P0, Pinv0)
    requires a < A.n && b < A.n
    requires start <= a && start <= b && IdentityOutside(Einv, start, A.n)
    modifies A, P, Pinv, if complementary then {B} else {}
    ensures RowTracks(A, B, P, Pinv, complementary, E', Einv', A0, B0, P0, Pinv0)
    ensures IdentityOutside(Einv', start, A.n)
    ensures A.Value() == RowSwapped(old(A.Value()), a, b)
  {
    var n := A.n;
    IdentityOutsideColSwapped(Einv, start, n, a, b);
    SwapStep(E, Einv, n, a, b);
    ProductRowSwapped(E, A0, a, b);
    ProductRowSwapped(E, P0, a, b);
    ProductColSwapped(Pinv0, Einv, a, b);
    if complementary {
      ProductColSwapped(B0, Einv, a, b);
    }
    A.RowSwap(a, b);
    P.RowSwap(a, b);
    if complementary {
      B.ColSwap(a, b);
    }
    Pinv.ColSwap(a, b);
    E', Einv' := RowSwapped(E, a, b), ColSwapped(Einv, a, b);
  }

  /** Lines that eliminate one entry: row o of A and P gains c times row i, and
      column i of P_inv (and of B when `complementary`) gains -c times column o. */
  method RowCombineTracked(A: SMatrix, B: SMatrix, P: SMatrix, Pinv: SMatrix, complementary: bool, o: nat, i: nat, c: int,
                           ghost E: Matrix, ghost Einv: Matrix, ghost A0: Matrix, ghost B0: Matrix, ghost P0: Matrix, ghost Pinv0: Matrix,
                        ghost start: nat)
    returns (ghost E': Matrix, ghost Einv': Matrix)
    requires A != P && A != Pinv && P != Pinv && B != A && B != P && B != Pinv
    requires RowTracks(A, B, P, Pinv, complementary, E, Einv, A0, B0, P0, Pinv0)
    requires o < A.n && i < A.n && o != i && IsElem(c)
    requires start <= o && start <= i && IdentityOutside(Einv, start, A.n)
    modifies A, P, Pinv, if complementary then {B} else {}
    ensures RowTracks(A, B, P, Pinv, complementary, E', Einv', A0, B0, P0, Pinv0)
    ensures IdentityOutside(Einv', start, A.n)
    ensures A.Value() == RowCombined(old(A.Value()), o, i, c)
  {
    var n := A.n;
    var d := Neg(c);
    IdentityOutsideColCombined(Einv, start, n, i, o, d);
    NegCancels(c);
    CombineStep(E, Einv, n, o, i, c, d);
    ProductRowCombined(E, A0, o, i, c);
    ProductRowCombined(E, P0, o, i, c);
    ProductColCombined(Pinv0, Einv, i, o, d);
    if complementary {
      ProductColCombined(B0, Einv, i, o, d);
    }
    A.RowCombine(o, i, c);
    P.RowCombine(o, i, c);
    Pinv.ColCombine(i, o, d);
    if complementary {
      B.ColCombine(i, o, d);
    }
    E', Einv' := RowCombined(E, o, i, c), ColCombined(Einv, i, o, d);
  }

  /** One pivot of the row reduction: the pivot row found at `nonzeroRow` is swapped
      into row i, then every row below i loses its entry in column j. */
  method RowPivotStep(A: SMatrix, B: SMatrix, P: SMatrix, Pinv: SMatrix, complementary: bool, i: nat, j: nat, nonzeroRow: nat,
                      ghost E: Matrix, ghost Einv: Matrix, ghost A0: Matrix, ghost B0: Matrix, ghost P0: Matrix, ghost Pinv0: Matrix,
                        ghost start: nat)
    returns (ghost E': Matrix, ghost Einv': Matrix)
    requires A != P && A != Pinv && P != Pinv && B != A && B != P && B != Pinv
    requires RowTracks(A, B, P, Pinv, complementary, E, Einv, A0, B0, P0, Pinv0)
    requires i < A.n && j < A.m && nonzeroRow == PivotRow(A.Value(), i, j) && nonzeroRow < A.n
    requires start <= i && IdentityOutside(Einv, start, A.n)
    modifies A, P, Pinv, if complementary then {B} else {}
    ensures RowTracks(A, B, P, Pinv, complementary, E', Einv', A0, B0, P0, Pinv0)
    ensures IdentityOutside(Einv', start, A.n)
    ensures Turn(A.Value(), i + 1, j + 1) == EchelonTurn(old(A.Value()), i, j)
  {
    E', Einv' := E, Einv;
    if nonzeroRow != i {
      E', Einv' := RowSwapTracked(A, B, P, Pinv, complementary, i, nonzeroRow, E', Einv', A0, B0, P0, Pinv0, start);
    }
    ghost var A1 := A.Value();
    assert A1 == if nonzeroRow != i then RowSwapped(old(A.Value()), i, nonzeroRow) else old(A.Value());
    var pivot := Neg(Inv(A.Get(i, j)));
    E', Einv' := RowEliminateTracked(A, B, P, Pinv, complementary, i, j, pivot, E', Einv', A0, B0, P0, Pinv0, start);
  }

  /** The inner loop of one pivot: every row below i with a nonzero entry in column j
      gains that entry times `pivot` times row i. */
  method RowEliminateTracked(A: SMatrix, B: SMatrix, P: SMatrix, Pinv: SMatrix, complementary: bool, i: nat, j: nat, pivot: int,
                             ghost E: Matrix, ghost Einv: Matrix, ghost A0: Matrix, ghost B0: Matrix, ghost P0: Matrix, ghost Pinv0: Matrix,
                        ghost start: nat)
    returns (ghost E': Matrix, ghost Einv': Matrix)
    requires A != P && A != Pinv && P != Pinv && B != A && B != P && B != Pinv
    requires RowTracks(A, B, P, Pinv, complementary, E, Einv, A0, B0, P0, Pinv0)
    requires i < A.n && j < A.m
    requires start <= i && IdentityOutside(Einv, start, A.n)
    modifies A, P, Pinv, if complementary then {B} else {}
    ensures RowTracks(A, B, P, Pinv, complementary, E', Einv', A0, B0, P0, Pinv0)
    ensures IdentityOutside(Einv', start, A.n)
    ensures A.Value() == EliminateBelow(old(A.Value()), i, j, pivot, i + 1)
  {
    E', Einv' := E, Einv;
    ghost var A1 := A.Value();
    var otherRow := i + 1;
    while otherRow < A.n
      invariant RowTracks(A, B, P, Pinv, complementary, E', Einv', A0, B0, P0, Pinv0)
      invariant IdentityOutside(Einv', start, A.n)
      invariant A.n == A1.n && A.m == A1.m && i + 1 <= otherRow <= A.n
      invariant EliminateBelow(A.Value(), i, j, pivot, otherRow) == EliminateBelow(A1, i, j, pivot, i + 1)
    {
      E', Einv' := RowEliminateOne(A, B, P, Pinv, complementary, i, j, pivot, otherRow, E', Einv', A0, B0, P0, Pinv0, start);
      otherRow := otherRow + 1;
    }
  }

  /** One turn of that loop, on row `otherRow`. */
  method RowEliminateOne(A: SMatrix, B: SMatrix, P: SMatrix, Pinv: SMatrix, complementary: bool, i: nat, j: nat, pivot: int,
                         otherRow: nat,
                         ghost E: Matrix, ghost Einv: Matrix, ghost A0: Matrix, ghost B0: Matrix, ghost P0: Matrix, ghost Pinv0: Matrix,
                        ghost start: nat)
    returns (ghost E': Matrix, ghost Einv': Matrix)
    requires A != P && A != Pinv && P != Pinv && B != A && B != P && B != Pinv
    requires RowTracks(A, B, P, Pinv, complementary, E, Einv, A0, B0, P0, Pinv0)
    requires i < otherRow < A.n && j < A.m
    requires start <= i && IdentityOutside(Einv, start, A.n)
    modifies A, P, Pinv, if complementary then {B} else {}
    ensures RowTracks(A, B, P, Pinv, complementary, E', Einv', A0, B0, P0, Pinv0)
    ensures IdentityOutside(Einv', start, A.n)
    ensures A.Value() == EliminatedRow(old(A.Value()), i, j, pivot, otherRow)
    ensures EliminateBelow(A.Value(), i, j, pivot, otherRow + 1) == EliminateBelow(old(A.Value()), i, j, pivot, otherRow)
  {
    E', Einv' := E, Einv;
    var c := A.Get(otherRow, j);
    if !IsZero(c) {
      c := Mul(c, pivot);
      E', Einv' := RowCombineTracked(A, B, P, Pinv, complementary, otherRow, i, c, E', Einv', A0, B0, P0, Pinv0, start);
    }
  }

  /** One turn of the outer loop of `rowReduce`: a column j without a pivot at or
      below row i is skipped; otherwise the pivot is placed and eliminated below. */
  method RowReduceStep(A: SMatrix, B: SMatrix, P: SMatrix, Pinv: SMatrix, complementary: bool, i: nat, j: nat,
                       ghost E: Matrix, ghost Einv: Matrix, ghost A0: Matrix, ghost B0: Matrix, ghost P0: Matrix, ghost Pinv0: Matrix,
                        ghost start: nat)
    returns (i': nat, j': nat, ghost E': Matrix, ghost Einv': Matrix)
    requires A != P && A != Pinv && P != Pinv && B != A && B != P && B != Pinv
    requires RowTracks(A, B, P, Pinv, complementary, E, Einv, A0, B0, P0, Pinv0)
    requires i < A.n && j < A.m
    requires start <= i && IdentityOutside(Einv, start, A.n)
    modifies A, P, Pinv, if complementary then {B} else {}
    ensures RowTracks(A, B, P, Pinv, complementary, E', Einv', A0, B0, P0, Pinv0)
    ensures IdentityOutside(Einv', start, A.n)
    ensures Turn(A.Value(), i', j') == EchelonTurn(old(A.Value()), i, j)
    ensures i' == i ==> E' == E && Einv' == Einv
  {
    var nonzeroRow := FindPivotRow(A, i, j);
    if nonzeroRow == A.n {
      i', j', E', Einv' := i, j + 1, E, Einv;
    } else {
      E', Einv' := RowPivotStep(A, B, P, Pinv, complementary, i, j, nonzeroRow, E, Einv, A0, B0, P0, Pinv0, start);
      i', j' := i + 1, j + 1;
    }
  }

  /** `rowReduce<_N, complementary>`: row-echelonizes A into E * A, applies the same
      row operations to P and the inverse column operations to P_inv (and to B when
      `complementary`). The elimination starts at row `start`; the source code uses 0. */
  method RowReduce(A: SMatrix, B: SMatrix, P: SMatrix, Pinv: SMatrix, complementary: bool, start: nat)
    returns (rank: nat, ghost E: Matrix, ghost Einv: Matrix)
    requires A != P && A != Pinv && P != Pinv && B != A && B != P && B != Pinv
    requires A.Valid() && B.Valid() && P.Valid() && Pinv.Valid()
    requires P.n == A.n && Pinv.m == A.n && (complementary ==> B.m == A.n)
    requires start <= A.n
    modifies A, P, Pinv, if complementary then {B} else {}
    ensures A.Valid() && B.Valid() && P.Valid() && Pinv.Valid()
    ensures A.n == old(A.n) && A.m == old(A.m) && P.n == old(P.n) && P.m == old(P.m)
    ensures Pinv.n == old(Pinv.n) && Pinv.m == old(Pinv.m) && B.n == old(B.n) && B.m == old(B.m)
    ensures RowEchelonFrom(old(A.Value()), start, 0) == Reduced(A.Value(), rank)
    ensures InversePair(E, Einv, A.n) && IdentityOutside(Einv, start, A.n)
    ensures A.Value() == Product(E, old(A.Value()))
    ensures P.Value() == Product(E, old(P.Value()))
    ensures Pinv.Value() == Product(old(Pinv.Value()), Einv)
    ensures complementary ==> B.Value() == Product(old(B.Value()), Einv)
    ensures complementary ==> Product(B.Value(), A.Value()) == Product(old(B.Value()), old(A.Value()))
    ensures rank == start ==> E == Identity(A.n) && Einv == Identity(A.n)
    ensures rank == start ==> (A.Value() == old(A.Value()) && P.Value() == old(P.Value())
                               && Pinv.Value() == old(Pinv.Value()) && B.Value() == old(B.Value()))
  {
    ghost var A0, B0, P0, Pinv0 := A.Value(), B.Value(), P.Value(), Pinv.Value();
    ghost var n := A.n;
    E, Einv := Identity(n), Identity(n);
    RowTracksStart(A, B, P, Pinv, complementary);
    var i: nat, j: nat := start, 0;
    while i < A.n && j < A.m
      invariant RowTracks(A, B, P, Pinv, complementary, E, Einv, A0, B0, P0, Pinv0)
      invariant A.m == A0.m && start <= i <= A.n && j <= A.m
      invariant RowEchelonFrom(A.Value(), i, j) == RowEchelonFrom(A0, start, 0)
      invariant i == start ==> E == Identity(n) && Einv == Identity(n)
      invariant IdentityOutside(Einv, start, n)
      decreases A.m - j
    {
      RowEchelonFromTurn(A.Value(), i, j);
      i, j, E, Einv := RowReduceStep(A, B, P, Pinv, complementary, i, j, E, Einv, A0, B0, P0, Pinv0, start);
    }
    rank := i;
    ProductIs(A.Value(), E, A0);
    ProductIs(P.Value(), E, P0);
    ProductIs(Pinv.Value(), Pinv0, Einv);
    if complementary {
      ProductIs(B.Value(), B0, Einv);
      ProductThroughInverse(B0, Einv, E, A0, n);
    }
    if rank == start {
      ProductIdentity(A0);
      ProductIdentity(P0);
      ProductIdentity(Pinv0);
      ProductIdentity(B0);
    }
  }

  /** The bookkeeping of a column reduction: A and Q are their starting values times
      F, Q_inv (and B when `complementary`) are Finv times their starting values, and
      F, Finv are inverse to each other. */
  ghost predicate ColTracks(A: SMatrix, B: SMatrix, Q: SMatrix, Qinv: SMatrix, complementary: bool,
                            F: Matrix, Finv: Matrix, A0: Matrix, B0: Matrix, Q0: Matrix, Qinv0: Matrix)
    reads A, B, Q, Qinv
  {
    && A.Valid() && B.Valid() && Q.Valid() && Qinv.Valid()
    && Wf(A0) && Wf(B0) && Wf(Q0) && Wf(Qinv0)
    && InversePair(F, Finv, A.m)
    && A0.m == A.m && Q0.m == A.m && Qinv0.n == A.m
    && IsProduct(A.Value(), A0, F) && IsProduct(Q.Value(), Q0, F) && IsProduct(Qinv.Value(), Finv, Qinv0)
    && (complementary ==> B0.n == A.m && IsProduct(B.Value(), Finv, B0))
  }

  /** Lines that swap the pivot column into place: columns a, b of A and Q, rows
      a, b of Q_inv and (when `complementary`) of B. */
  method ColSwapTracked(A: SMatrix, B: SMatrix, Q: SMatrix, Qinv: SMatrix, complementary: bool, a: nat, b: nat,
                        ghost F: Matrix, ghost Finv: Matrix, ghost A0: Matrix, ghost B0: Matrix, ghost Q0: Matrix, ghost Qinv0: Matrix)
    returns (ghost F': Matrix, ghost Finv': Matrix)
    requires A != Q && A != Qinv && Q != Qinv && B != A && B != Q && B != Qinv
    requires ColTracks(A, B, Q, Qinv, complementary, F, Finv, A0, B0, Q0, Qinv0)
    requires a < A.m && b < A.m
    modifies A, Q, Qinv, if complementary then {B} else {}
    ensures ColTracks(A, B, Q, Qinv, complementary, F', Finv', A0, B0, Q0, Qinv0)
    ensures A.Value() == ColSwapped(old(A.Value()), a, b)
  {
    var m := A.m;
    SwapStep(Finv, F, m, a, b);
    ProductColSwapped(A0, F, a, b);
    ProductColSwapped(Q0, F, a, b);
    ProductRowSwapped(Finv, Qinv0, a, b);
    if complementary {
      ProductRowSwapped(Finv, B0, a, b);
    }
    A.ColSwap(a, b);
    Q.ColSwap(a, b);
    if complementary {
      B.RowSwap(a, b);
    }
    Qinv.RowSwap(a, b);
    F', Finv' := ColSwapped(F, a, b), RowSwapped(Finv, a, b);
  }

  /** Lines that eliminate one entry: column o of A and Q gains c times column j, and
      row j of Q_inv (and of B when `complementary`) gains -c times row o. */
  method ColCombineTracked(A: SMatrix, B: SMatrix, Q: SMatrix, Qinv: SMatrix, complementary: bool, o: nat, j: nat, c: int,
                           ghost F: Matrix, ghost Finv: Matrix, ghost A0: Matrix, ghost B0: Matrix, ghost Q0: Matrix, ghost Qinv0: Matrix)
    returns (ghost F': Matrix, ghost Finv': Matrix)
    requires A != Q && A != Qinv && Q != Qinv && B != A && B != Q && B != Qinv
    requires ColTracks(A, B, Q, Qinv, complementary, F, Finv, A0, B0, Q0, Qinv0)
    requires o < A.m && j < A.m && o != j && IsElem(c)
    modifies A, Q, Qinv, if complementary then {B} else {}
    ensures ColTracks(A, B, Q, Qinv, complementary, F', Finv', A0, B0, Q0, Qinv0)
    ensures A.Value() == ColCombined(old(A.Value()), o, j, c)
  {
    var m := A.m;
    var d := Neg(c);
    NegCancels(c);
    assert Norm(d + c) == 0 by { assert d + c == c + d; }
    CombineStep(Finv, F, m, j, o, d, c);
    ProductColCombined(A0, F, o, j, c);
    ProductColCombined(Q0, F, o, j, c);
    ProductRowCombined(Finv, Qinv0, j, o, d);
    if complementary {
      ProductRowCombined(Finv, B0, j, o, d);
    }
    A.ColCombine(o, j, c);
    Q.ColCombine(o, j, c);
    if complementary {
      B.RowCombine(j, o, d);
    }
    Qinv.RowCombine(j, o, d);
    F', Finv' := ColCombined(F, o, j, c), RowCombined(Finv, j, o, d);
  }

  /** One pivot of the column reduction: the pivot column found at `nonzeroCol` is
      swapped into column j, then every column after j loses its entry in row i. */
  method ColPivotStep(A: SMatrix, B: SMatrix, Q: SMatrix, Qinv: SMatrix, complementary: bool, i: nat, j: nat, nonzeroCol: nat,
                      ghost F: Matrix, ghost Finv: Matrix, ghost A0: Matrix, ghost B0: Matrix, ghost Q0: Matrix, ghost Qinv0: Matrix)
    returns (ghost F': Matrix, ghost Finv': Matrix)
    requires A != Q && A != Qinv && Q != Qinv && B != A && B != Q && B != Qinv
    requires ColTracks(A, B, Q, Qinv, complementary, F, Finv, A0, B0, Q0, Qinv0)
    requires i < A.n && j < A.m && nonzeroCol == PivotRow(Transpose(A.Value()), j, i) && nonzeroCol < A.m
    modifies A, Q, Qinv, if complementary then {B} else {}
    ensures ColTracks(A, B, Q, Qinv, complementary, F', Finv', A0, B0, Q0, Qinv0)
    ensures Turn(Transpose(A.Value()), j + 1, i + 1) == EchelonTurn(Transpose(old(A.Value())), j, i)
  {
    F', Finv' := F, Finv;
    if nonzeroCol != j {
      TransposeColSwapped(A.Value(), j, nonzeroCol);
      F', Finv' := ColSwapTracked(A, B, Q, Qinv, complementary, j, nonzeroCol, F', Finv', A0, B0, Q0, Qinv0);
    }
    ghost var T1 := Transpose(A.Value());
    assert T1 == if nonzeroCol != j then RowSwapped(Transpose(old(A.Value())), j, nonzeroCol) else Transpose(old(A.Value()));
    ghost var A1 := A.Value();
    var pivot := Neg(Inv(A.Get(i, j)));
    F', Finv' := ColEliminateTracked(A, B, Q, Qinv, complementary, i, j, pivot, F', Finv', A0, B0, Q0, Qinv0);
    EliminateRightTransposed(A1, i, j, pivot, j + 1);
  }

  /** The inner loop of one pivot: every column after j with a nonzero entry in row i
      gains that entry times `pivot` times column j. */
  method ColEliminateTracked(A: SMatrix, B: SMatrix, Q: SMatrix, Qinv: SMatrix, complementary: bool, i: nat, j: nat, pivot: int,
                             ghost F: Matrix, ghost Finv: Matrix, ghost A0: Matrix, ghost B0: Matrix, ghost Q0: Matrix, ghost Qinv0: Matrix)
    returns (ghost F': Matrix, ghost Finv': Matrix)
    requires A != Q && A != Qinv && Q != Qinv && B != A && B != Q && B != Qinv
    requires ColTracks(A, B, Q, Qinv, complementary, F, Finv, A0, B0, Q0, Qinv0)
    requires i < A.n && j < A.m
    modifies A, Q, Qinv, if complementary then {B} else {}
    ensures ColTracks(A, B, Q, Qinv, complementary, F', Finv', A0, B0, Q0, Qinv0)
    ensures A.Value() == EliminateRight(old(A.Value()), i, j, pivot, j + 1)
  {
    F', Finv' := F, Finv;
    ghost var A1 := A.Value();
    var otherCol := j + 1;
    while otherCol < A.m
      invariant ColTracks(A, B, Q, Qinv, complementary, F', Finv', A0, B0, Q0, Qinv0)
      invariant A.n == A1.n && A.m == A1.m && j + 1 <= otherCol <= A.m
      invariant EliminateRight(A.Value(), i, j, pivot, otherCol) == EliminateRight(A1, i, j, pivot, j + 1)
    {
      F', Finv' := ColEliminateOne(A, B, Q, Qinv, complementary, i, j, pivot, otherCol, F', Finv', A0, B0, Q0, Qinv0);
      otherCol := otherCol + 1;
    }
  }

  /** One turn of that loop, on column `otherCol`. */
  method ColEliminateOne(A: SMatrix, B: SMatrix, Q: SMatrix, Qinv: SMatrix, complementary: bool, i: nat, j: nat, pivot: int,
                         otherCol: nat,
                         ghost F: Matrix, ghost Finv: Matrix, ghost A0: Matrix, ghost B0: Matrix, ghost Q0: Matrix, ghost Qinv0: Matrix)
    returns (ghost F': Matrix, ghost Finv': Matrix)
    requires A != Q && A != Qinv && Q != Qinv && B != A && B != Q && B != Qinv
    requires ColTracks(A, B, Q, Qinv, complementary, F, Finv, A0, B0, Q0, Qinv0)
    requires i < A.n && j < otherCol < A.m
    modifies A, Q, Qinv, if complementary then {B} else {}
    ensures ColTracks(A, B, Q, Qinv, complementary, F', Finv', A0, B0, Q0, Qinv0)
    ensures A.Value() == EliminatedCol(old(A.Value()), i, j, pivot, otherCol)
    ensures EliminateRight(A.Value(), i, j, pivot, otherCol + 1) == EliminateRight(old(A.Value()), i, j, pivot, otherCol)
  {
    F', Finv' := F, Finv;
    var c := A.Get(i, otherCol);
    if !IsZero(c) {
      c := Mul(c, pivot);
      F', Finv' := ColCombineTracked(A, B, Q, Qinv, complementary, otherCol, j, c, F', Finv', A0, B0, Q0, Qinv0);
    }
  }

  /** One turn of the outer loop of `columnReduce`: a row i without a pivot at or
      after column j is skipped; otherwise the pivot is placed and eliminated to the right. */
  method ColReduceStep(A: SMatrix, B: SMatrix, Q: SMatrix, Qinv: SMatrix, complementary: bool, i: nat, j: nat,
                       ghost F: Matrix, ghost Finv: Matrix, ghost A0: Matrix, ghost B0: Matrix, ghost Q0: Matrix, ghost Qinv0: Matrix)
    returns (i': nat, j': nat, ghost F': Matrix, ghost Finv': Matrix)
    requires A != Q && A != Qinv && Q != Qinv && B != A && B != Q && B != Qinv
    requires ColTracks(A, B, Q, Qinv, complementary, F, Finv, A0, B0, Q0, Qinv0)
    requires i < A.n && j < A.m
    modifies A, Q, Qinv, if complementary then {B} else {}
    ensures ColTracks(A, B, Q, Qinv, complementary, F', Finv', A0, B0, Q0, Qinv0)
    ensures A.n == old(A.n) && A.m == old(A.m)
    ensures Turn(Transpose(A.Value()), j', i') == EchelonTurn(Transpose(old(A.Value())), j, i)
    ensures j' == j ==> F' == F && Finv' == Finv
  {
    var nonzeroCol := FindPivotCol(A, i, j);
    if nonzeroCol == A.m {
      i', j', F', Finv' := i + 1, j, F, Finv;
    } else {
      F', Finv' := ColPivotStep(A, B, Q, Qinv, complementary, i, j, nonzeroCol, F, Finv, A0, B0, Q0, Qinv0);
      i', j' := i + 1, j + 1;
    }
  }

  /** `columnReduce<_N, complementary>`: column-echelonizes A into A * F, applies the
      same column operations to Q and the inverse row operations to Q_inv (and to B
      when `complementary`). */
  method ColumnReduce(A: SMatrix, B: SMatrix, Q: SMatrix, Qinv: SMatrix, complementary: bool)
    returns (rank: nat, ghost F: Matrix, ghost Finv: Matrix)
    requires A != Q && A != Qinv && Q != Qinv && B != A && B != Q && B != Qinv
    requires A.Valid() && B.Valid() && Q.Valid() && Qinv.Valid()
    requires Q.m == A.m && Qinv.n == A.m && (complementary ==> B.n == A.m)
    modifies A, Q, Qinv, if complementary then {B} else {}
    ensures A.Valid() && B.Valid() && Q.Valid() && Qinv.Valid()
    ensures A.n == old(A.n) && A.m == old(A.m) && Q.n == old(Q.n) && Q.m == old(Q.m)
    ensures Qinv.n == old(Qinv.n) && Qinv.m == old(Qinv.m) && B.n == old(B.n) && B.m == old(B.m)
    ensures ColEchelon(old(A.Value())) == Reduced(A.Value(), rank)
    ensures InversePair(F, Finv, A.m)
    ensures A.Value() == Product(old(A.Value()), F)
    ensures Q.Value() == Product(old(Q.Value()), F)
    ensures Qinv.Value() == Product(Finv, old(Qinv.Value()))
    ensures complementary ==> B.Value() == Product(Finv, old(B.Value()))
    ensures complementary ==> Product(A.Value(), B.Value()) == Product(old(A.Value()), old(B.Value()))
    ensures rank == 0 ==> F == Identity(A.m) && Finv == Identity(A.m)
    ensures rank == 0 ==> (A.Value() == old(A.Value()) && Q.Value() == old(Q.Value())
                           && Qinv.Value() == old(Qinv.Value()) && B.Value() == old(B.Value()))
  {
    ghost var A0, B0, Q0, Qinv0 := A.Value(), B.Value(), Q.Value(), Qinv.Value();
    ghost var m := A.m;
    F, Finv := Identity(m), Identity(m);
    ColTracksStart(A, B, Q, Qinv, complementary);
    var i: nat, j: nat := 0, 0;
    while i < A.n && j < A.m
      invariant ColTracks(A, B, Q, Qinv, complementary, F, Finv, A0, B0, Q0, Qinv0)
      invariant A.n == A0.n && i <= A.n && j <= A.m
      invariant RowEchelonFrom(Transpose(A.Value()), j, i) == RowEchelonFrom(Transpose(A0), 0, 0)
      invariant j == 0 ==> F == Identity(m) && Finv == Identity(m)
      decreases A.n - i
    {
      RowEchelonFromTurn(Transpose(A.Value()), j, i);
      i, j, F, Finv := ColReduceStep(A, B, Q, Qinv, complementary, i, j, F, Finv, A0, B0, Q0, Qinv0);
    }
    rank := j;
    TransposeTwice(A.Value());
    ProductIs(A.Value(), A0, F);
    ProductIs(Q.Value(), Q0, F);
    ProductIs(Qinv.Value(), Finv, Qinv0);
    if complementary {
      ProductIs(B.Value(), Finv, B0);
      ProductThroughInverse(A0, F, Finv, B0, m);
    }
    if rank == 0 {
      ProductIdentity(A0);
      ProductIdentity(Q0);
      ProductIdentity(Qinv0);
      ProductIdentity(B0);
    }
  }

  /** The four-argument `columnReduce`: reduction with the complementary matrix B. */
  method ColumnReduceComplementary(A: SMatrix, B: SMatrix, Q: SMatrix, Qinv: SMatrix)
    returns (rank: nat)
    requires A != Q && A != Qinv && Q != Qinv && B != A && B != Q && B != Qinv
    requires A.Valid() && B.Valid() && Q.Valid() && Qinv.Valid()
    requires Q.m == A.m && Qinv.n == A.m && B.n == A.m
    modifies A, B, Q, Qinv
    ensures A.Valid() && B.Valid() && Q.Valid() && Qinv.Valid()
    ensures A.n == old(A.n) && A.m == old(A.m) && B.n == old(B.n) && B.m == old(B.m)
    ensures ColEchelon(old(A.Value())) == Reduced(A.Value(), rank)
    ensures IsColEchelon(A.Value(), rank) && rank <= A.n && rank <= A.m
    ensures Product(A.Value(), B.Value()) == Product(old(A.Value()), old(B.Value()))
  {
    ghost var F, Finv;
    rank, F, Finv := ColumnReduce(A, B, Q, Qinv, true);
    ColEchelonCorrect(old(A.Value()));
  }

  /** The four-argument `rowReduce`: reduction with the complementary matrix B. */
  method RowReduceComplementary(A: SMatrix, B: SMatrix, P: SMatrix, Pinv: SMatrix)
    returns (rank: nat)
    requires A != P && A != Pinv && P != Pinv && B != A && B != P && B != Pinv
    requires A.Valid() && B.Valid() && P.Valid() && Pinv.Valid()
    requires P.n == A.n && Pinv.m == A.n && B.m == A.n
    modifies A, B, P, Pinv
    ensures A.Valid() && B.Valid() && P.Valid() && Pinv.Valid()
    ensures A.n == old(A.n) && A.m == old(A.m) && B.n == old(B.n) && B.m == old(B.m)
    ensures RowEchelon(old(A.Value())) == Reduced(A.Value(), rank)
    ensures IsRowEchelon(A.Value(), rank) && rank <= A.n && rank <= A.m
    ensures Product(B.Value(), A.Value()) == Product(old(B.Value()), old(A.Value()))
  {
    ghost var E, Einv;
    rank, E, Einv := RowReduce(A, B, P, Pinv, true, 0);
    RowEchelonCorrect(old(A.Value()));
  }

  /** The three-argument `columnReduce`: Q and Q_inv restart at identity(A.m), so
      afterwards A = A_old * Q and Q * Q_inv = I. */
  method ColumnReduceWithBasis(A: SMatrix, Q: SMatrix, Qinv: SMatrix) returns (rank: nat)
    requires A != Q && A != Qinv && Q != Qinv
    requires A.Valid()
    modifies A, Q, Qinv
    ensures A.Valid() && Q.Valid() && Qinv.Valid()
    ensures ColEchelon(old(A.Value())) == Reduced(A.Value(), rank)
    ensures IsColEchelon(A.Value(), rank) && rank <= A.n && rank <= A.m
    ensures Q.n == A.m && Q.m == A.m && Qinv.n == A.m && Qinv.m == A.m
    ensures A.Value() == Product(old(A.Value()), Q.Value())
    ensures Product(Q.Value(), Qinv.Value()) == Identity(A.m) && Product(Qinv.Value(), Q.Value()) == Identity(A.m)
    ensures rank == 0 ==> A.Value() == old(A.Value()) && Q.Value() == Identity(A.m) && Qinv.Value() == Identity(A.m)
  {
    Q.SetValue(Identity(A.m));
    Qinv.SetValue(Identity(A.m));
    var dummy := SMatrix.ZeroMatrix();
    ghost var F, Finv;
    ProductIdentity(Identity(A.m));
    rank, F, Finv := ColumnReduce(A, dummy, Q, Qinv, false);
    ProductIdentity(F);
    ProductIdentity(Finv);
    ColEchelonCorrect(old(A.Value()));
  }

  /** The three-argument `rowReduce`: P and P_inv restart at identity(A.n), so
      afterwards A = P * A_old and P * P_inv = I. */
  method RowReduceWithBasis(A: SMatrix, P: SMatrix, Pinv: SMatrix) returns (rank: nat)
    requires A != P && A != Pinv && P != Pinv
    requires A.Valid()
    modifies A, P, Pinv
    ensures A.Valid() && P.Valid() && Pinv.Valid()
    ensures RowEchelon(old(A.Value())) == Reduced(A.Value(), rank)
    ensures IsRowEchelon(A.Value(), rank) && rank <= A.n && rank <= A.m
    ensures P.n == A.n && P.m == A.n && Pinv.n == A.n && Pinv.m == A.n
    ensures A.Value() == Product(P.Value(), old(A.Value()))
    ensures Product(P.Value(), Pinv.Value()) == Identity(A.n) && Product(Pinv.Value(), P.Value()) == Identity(A.n)
    ensures rank == 0 ==> A.Value() == old(A.Value()) && P.Value() == Identity(A.n) && Pinv.Value() == Identity(A.n)
  {
    P.SetValue(Identity(A.n));
    Pinv.SetValue(Identity(A.n));
    var dummy := SMatrix.ZeroMatrix();
    ghost var E, Einv;
    ProductIdentity(Identity(A.n));
    rank, E, Einv := RowReduce(A, dummy, P, Pinv, false, 0);
    ProductIdentity(E);
    ProductIdentity(Einv);
    RowEchelonCorrect(old(A.Value()));
  }

  /** `simultaneousReduce` as written: column-reduce A against B, then row-reduce B
      against A from row 0. Afterwards A = A_old * R, B = R_inv * B_old, R and R_inv
      are inverse, and A * B is unchanged. */
  method SimultaneousReduce(A: SMatrix, B: SMatrix, R: SMatrix, Rinv: SMatrix)
    requires A != B && A != R && A != Rinv && B != R && B != Rinv && R != Rinv
    requires A.Valid() && B.Valid()
    requires A.m == B.n
    modifies A, B, R, Rinv
    ensures A.Valid() && B.Valid() && R.Valid() && Rinv.Valid()
    ensures A.n == old(A.n) && A.m == old(A.m) && B.n == old(B.n) && B.m == old(B.m)
    ensures R.n == B.n && R.m == B.n && Rinv.n == B.n && Rinv.m == B.n
    ensures A.Value() == Product(old(A.Value()), R.Value())
    ensures B.Value() == Product(Rinv.Value(), old(B.Value()))
    ensures Product(R.Value(), Rinv.Value()) == Identity(B.n) && Product(Rinv.Value(), R.Value()) == Identity(B.n)
    ensures Product(A.Value(), B.Value()) == Product(old(A.Value()), old(B.Value()))
  {
    var index, colRank;
    ghost var F, Finv;
    index, colRank, F, Finv := SimultaneousPhases(A, B, R, Rinv, false);
  }

  /** `simultaneousReduce` with a pivot count. The column phase brings A into
      column echelon form A_old * F with `cycleIndex` pivots, so the columns of F
      (and of R) from `cycleIndex` on are cycles of A_old. The row phase then
      row-reduces F^-1 * B_old from row `cycleIndex` on, and the row count it
      ends at is the first homology index: the rows of R_inv * B_old from there
      on are zero, so every column of B_old is a combination of the first
      `firstHomologyIndex` columns of R. The row phase leaves A as the column
      phase left it. */
  method SimultaneousReduceIndexed(A: SMatrix, B: SMatrix, R: SMatrix, Rinv: SMatrix)
    returns (firstHomologyIndex: nat, ghost cycleIndex: nat, ghost F: Matrix, ghost Finv: Matrix)
    requires A != B && A != R && A != Rinv && B != R && B != Rinv && R != Rinv
    requires A.Valid() && B.Valid()
    requires A.m == B.n
    modifies A, B, R, Rinv
    ensures A.Valid() && B.Valid() && R.Valid() && Rinv.Valid()
    ensures A.n == old(A.n) && A.m == old(A.m) && B.n == old(B.n) && B.m == old(B.m)
    ensures R.n == B.n && R.m == B.n && Rinv.n == B.n && Rinv.m == B.n
    ensures A.Value() == Product(old(A.Value()), R.Value())
    ensures B.Value() == Product(Rinv.Value(), old(B.Value()))
    ensures Product(R.Value(), Rinv.Value()) == Identity(B.n) && Product(Rinv.Value(), R.Value()) == Identity(B.n)
    ensures Product(A.Value(), B.Value()) == Product(old(A.Value()), old(B.Value()))
    ensures InversePair(F, Finv, B.n)
    ensures ColEchelon(old(A.Value())) == Reduced(A.Value(), cycleIndex)
    ensures A.Value() == Product(old(A.Value()), F)
    ensures IsColEchelon(A.Value(), cycleIndex)
    ensures RowEchelonFrom(Product(Finv, old(B.Value())), cycleIndex, 0) == Reduced(B.Value(), firstHomologyIndex)
    ensures IsRowEchelonFrom(B.Value(), cycleIndex, firstHomologyIndex)
    ensures cycleIndex <= firstHomologyIndex <= B.n
  {
    var colRank;
    firstHomologyIndex, colRank, F, Finv := SimultaneousPhases(A, B, R, Rinv, true);
    cycleIndex := colRank;
    ColEchelonCorrect(old(A.Value()));
    RowEchelonFromStart(Product(Finv, old(B.Value())), cycleIndex);
  }

  /** The two phases of the simultaneous reduction; `continueRows` selects whether the
      row phase starts at the column pivot count or at 0. The column phase takes
      A_old to its column echelon form A_old * F and B_old to F^-1 * B_old. */
  method SimultaneousPhases(A: SMatrix, B: SMatrix, R: SMatrix, Rinv: SMatrix, continueRows: bool)
    returns (index: nat, colRank: nat, ghost F: Matrix, ghost Finv: Matrix)
    requires A != B && A != R && A != Rinv && B != R && B != Rinv && R != Rinv
    requires A.Valid() && B.Valid()
    requires A.m == B.n
    modifies A, B, R, Rinv
    ensures A.Valid() && B.Valid() && R.Valid() && Rinv.Valid()
    ensures index <= B.n
    ensures A.n == old(A.n) && A.m == old(A.m) && B.n == old(B.n) && B.m == old(B.m)
    ensures R.n == B.n && R.m == B.n && Rinv.n == B.n && Rinv.m == B.n
    ensures A.Value() == Product(old(A.Value()), R.Value())
    ensures B.Value() == Product(Rinv.Value(), old(B.Value()))
    ensures Product(R.Value(), Rinv.Value()) == Identity(B.n) && Product(Rinv.Value(), R.Value()) == Identity(B.n)
    ensures Product(A.Value(), B.Value()) == Product(old(A.Value()), old(B.Value()))
    ensures InversePair(F, Finv, B.n)
    ensures ColEchelon(old(A.Value())) == Reduced(Product(old(A.Value()), F), colRank)
    ensures RowEchelonFrom(Product(Finv, old(B.Value())), if continueRows then colRank else 0, 0)
            == Reduced(B.Value(), index)
    ensures continueRows ==> A.Value() == Product(old(A.Value()), F)
  {
    ghost var A0, B0 := A.Value(), B.Value();
    var m := A.m;
    R.SetValue(Identity(m));
    Rinv.SetValue(Identity(m));
    ProductIdentity(Identity(m));
    ghost var E, Einv;
    colRank, F, Finv := ColumnReduce(A, B, R, Rinv, true);
    ProductIdentity(F);
    ProductIdentity(Finv);
    ghost var A1 := A.Value();
    var start := if continueRows then colRank else 0;
    index, E, Einv := RowReduce(B, A, Rinv, R, true, start);
    ProductAssoc(A0, F, Einv);
    ProductAssoc(E, Finv, B0);
    ProductThroughInverse(F, Einv, E, Finv, m);
    ProductThroughInverse(E, Finv, F, Einv, m);
    if continueRows {
      ColumnPhaseKept(A0, A1, Einv, colRank);
    }
  }

  /** The row phase started at the column pivot count r changes only columns
      from r on of the column-reduced matrix, and those are zero. */
  lemma ColumnPhaseKept(A0: Matrix, A1: Matrix, Einv: Matrix, r: nat)
    requires Wf(A0) && ColEchelon(A0) == Reduced(A1, r) && IdentityOutside(Einv, r, A1.m)
    ensures Product(A1, Einv) == A1
  {
    ColEchelonCorrect(A0);
    ColumnsFromZero(A1, r);
    ProductIdentityOutside(A1, Einv, r, A1.m);
  }

  /** A matrix in column echelon form with r pivots is zero from column r on. */
  lemma ColumnsFromZero(A: Matrix, r: nat)
    requires Wf(A) && IsColEchelon(A, r)
    ensures forall i, j | 0 <= i < A.n && r <= j < A.m :: A.e[i][j] == 0
  {
    var T := Transpose(A);
    forall i, j | 0 <= i < A.n && r <= j < A.m
      ensures A.e[i][j] == 0
    {
      assert RowIsZero(T, j);
      assert IsZero(T.e[j][i]);
    }
  }
}
