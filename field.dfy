/** The prime field Z_p in which every matrix entry lives.

    The matrix class is a template over the prime; the program instantiates it
    with 11, so the model fixes P = 11. Elements are the canonical
    representatives 0 .. P-1; `Norm` maps any integer to its representative,
    which is how raw values such as -1 or P become field elements. */
module Field {

  const P: int := 11

  predicate IsElem(x: int) {
    0 <= x < P
  }

  /** Canonical representative of x modulo P. */
  function Norm(x: int): (r: int)
    ensures IsElem(r)
    ensures (x - r) % P == 0
    ensures IsElem(x) ==> r == x
  {
    x % P
  }

  /** The field's zero test: an integer congruent to 0 (such as P itself) is zero. */
  predicate IsZero(x: int) {
    Norm(x) == 0
  }

  function Add(a: int, b: int): int { Norm(a + b) }

  function Sub(a: int, b: int): int { Norm(a - b) }

  function Mul(a: int, b: int): int { Norm(a * b) }

  function Neg(a: int): int { Norm(-a) }

  /** Multiplicative inverse in Z_11 (0 has none; it is mapped to 0). */
  function Inv(a: int): (r: int)
    requires IsElem(a)
    ensures IsElem(r)
    ensures a != 0 ==> Mul(a, r) == 1
  {
    InvertsInZ11(a);
    [0, 1, 6, 4, 3, 9, 2, 8, 7, 5, 10][a]
  }

  lemma InvertsInZ11(a: int)
    requires IsElem(a)
    ensures a != 0 ==> Norm(a * [0, 1, 6, 4, 3, 9, 2, 8, 7, 5, 10][a]) == 1
  {
    if a == 0 {
    } else if a == 1 {
    } else if a == 2 {
    } else if a == 3 {
    } else if a == 4 {
    } else if a == 5 {
    } else if a == 6 {
    } else if a == 7 {
    } else if a == 8 {
    } else if a == 9 {
    } else {
    }
  }

  // ---------------------------------------------------------------------
  // Congruence facts used by the matrix algebra

  predicate Congruent(x: int, y: int) {
    Norm(x) == Norm(y)
  }

  lemma NormOfMultiple(x: int, k: int)
    ensures Norm(x + k * P) == Norm(x)
  {
  }

  lemma CongruentIff(x: int, y: int)
    ensures Congruent(x, y) <==> (x - y) % P == 0
  {
    var q1, q2 := x / P, y / P;
    assert x == q1 * P + Norm(x);
    assert y == q2 * P + Norm(y);
    assert x - y == (q1 - q2) * P + (Norm(x) - Norm(y));
    if (x - y) % P == 0 {
      var q := (x - y) / P;
      assert x - y == q * P;
      assert Norm(x) - Norm(y) == (q - q1 + q2) * P;
    }
  }

  lemma NormAddLeft(x: int, y: int)
    ensures Norm(Norm(x) + y) == Norm(x + y)
  {
    assert x == (x / P) * P + Norm(x);
    NormOfMultiple(Norm(x) + y, x / P);
  }

  lemma NormAddRight(x: int, y: int)
    ensures Norm(x + Norm(y)) == Norm(x + y)
  {
    NormAddLeft(y, x);
  }

  lemma NormMulLeft(x: int, y: int)
    ensures Norm(Norm(x) * y) == Norm(x * y)
  {
    var q := x / P;
    assert x == q * P + Norm(x);
    assert x * y == Norm(x) * y + (q * y) * P by {
      assert x * y == (q * P + Norm(x)) * y;
    }
    NormOfMultiple(Norm(x) * y, q * y);
  }

  lemma NormMulRight(x: int, y: int)
    ensures Norm(x * Norm(y)) == Norm(x * y)
  {
    NormMulLeft(y, x);
  }

  /** Adding congruent values to congruent values gives congruent sums. */
  lemma CongruentAdd(a: int, b: int, c: int, d: int)
    requires Congruent(a, b) && Congruent(c, d)
    ensures Congruent(a + c, b + d)
  {
    NormAddLeft(a, c);
    NormAddRight(Norm(a), c);
    NormAddLeft(b, d);
    NormAddRight(Norm(b), d);
  }

  lemma CongruentMul(a: int, b: int, c: int)
    requires Congruent(a, b)
    ensures Congruent(a * c, b * c)
  {
    NormMulLeft(a, c);
    NormMulLeft(b, c);
  }

  lemma NegCancels(c: int)
    ensures Norm(c + Neg(c)) == 0
  {
    NormAddRight(c, -c);
  }

  lemma NegNeg(c: int)
    requires IsElem(c)
    ensures Neg(Neg(c)) == c
  {
    NormAddRight(0, c);
    assert Norm(-Norm(-c)) == Norm(c) by {
      CongruentIff(-Norm(-c), c);
      CongruentIff(-c, Norm(-c));
    }
  }

  lemma CongruentMulBoth(x: int, x': int, y: int, y': int)
    requires Congruent(x, x') && Congruent(y, y')
    ensures Congruent(x * y, x' * y')
  {
    NormMulLeft(x, y);
    NormMulLeft(x', y);
    NormMulRight(x', y);
    NormMulRight(x', y');
  }

  lemma CongruentNeg(x: int, y: int)
    requires Congruent(x, y)
    ensures Congruent(-x, -y)
  {
    CongruentIff(x, y);
    var q := (x - y) / P;
    assert x - y == q * P;
    assert -x == -y + (-q) * P;
    NormOfMultiple(-y, -q);
  }

  lemma RingFacts(x: int, y: int, z: int)
    ensures x * (-y) == -(x * y)
    ensures -(x * y) * z == -(x * (y * z))
  {
  }

  /** The elimination step: adding (a * (-(1/b))) * b to a cancels a. */
  lemma EliminationCancels(a: int, b: int)
    requires IsElem(a) && IsElem(b) && b != 0
    ensures Norm(a + Mul(Mul(a, Neg(Inv(b))), b)) == 0
  {
    var ib := Inv(b);
    var c := Mul(a, Neg(ib));
    RingFacts(a, ib, b);
    assert Congruent(Neg(ib), -ib);
    CongruentMulBoth(a, a, Neg(ib), -ib);
    assert Congruent(c, -(a * ib));
    CongruentMulBoth(c, -(a * ib), b, b);
    assert Congruent(ib * b, 1);
    CongruentMulBoth(a, a, ib * b, 1);
    CongruentNeg(a * (ib * b), a);
    assert Congruent(Mul(c, b), -a);
    CongruentAdd(a, a, Mul(c, b), -a);
  }
}
