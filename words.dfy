/** Unsigned 64-bit words. On the 64-bit build both `size_t` and the value
    `to_ullong()` of a `std::bitset<64>` are such words, and their addition,
    subtraction and multiplication wrap around modulo 2^64. */
module Words {

  const TWO64: int := 0x1_0000_0000_0000_0000

  newtype u64 = x: int | 0 <= x < 0x1_0000_0000_0000_0000

  /** `a + b` on size_t, and `lhs + rhs` on bitset (which adds the `to_ullong()` values). */
  function WrapAdd(a: u64, b: u64): (r: u64)
    ensures (r as int - a as int - b as int) % TWO64 == 0
    ensures a as int + b as int < TWO64 ==> r as int == a as int + b as int
  {
    ((a as int + b as int) % TWO64) as u64
  }

  /** `a - b` on size_t, and `lhs - rhs` on bitset. */
  function WrapSub(a: u64, b: u64): (r: u64)
    ensures (r as int - a as int + b as int) % TWO64 == 0
    ensures b <= a ==> r == a - b
  {
    ((a as int - b as int) % TWO64) as u64
  }

  /** `lhs * rhs` on bitset. */
  function WrapMul(a: u64, b: u64): (r: u64)
    ensures (r as int - a as int * b as int) % TWO64 == 0
    ensures a as int * b as int < TWO64 ==> r as int == a as int * b as int
  {
    var p := a as int * b as int;
    ModFacts(p);
    (p % TWO64) as u64
  }

  lemma ModFacts(p: int)
    ensures (p % TWO64 - p) % TWO64 == 0
    ensures 0 <= p < TWO64 ==> p % TWO64 == p
  {
  }

  /** A natural number stored into a size_t keeps its low 64 bits. */
  function FromNat(x: nat): (r: u64)
    ensures (r as int - x) % TWO64 == 0
    ensures x < TWO64 ==> r as int == x
  {
    (x % TWO64) as u64
  }

  /** Subtracting what was added gives back the start: the wrap cancels. */
  lemma AddThenSub(a: u64, b: u64)
    ensures WrapSub(WrapAdd(a, b), b) == a
  {
    var s := WrapAdd(a, b);
    var q := (a as int + b as int) / TWO64;
    assert s as int == a as int + b as int - q * TWO64;
    assert s as int - b as int == a as int - q * TWO64;
    assert (a as int - q * TWO64) % TWO64 == a as int % TWO64 by {
      ModOfMultiple(a as int, q);
    }
  }

  lemma ModOfMultiple(x: int, q: int)
    ensures (x - q * TWO64) % TWO64 == x % TWO64
  {
  }

  /** Adding to a size_t commutes. */
  lemma AddCommutes(a: u64, b: u64, c: u64)
    ensures WrapAdd(WrapAdd(a, b), c) == WrapAdd(WrapAdd(a, c), b)
  {
    var ab := (a as int + b as int) / TWO64;
    var ac := (a as int + c as int) / TWO64;
    assert WrapAdd(a, b) as int + c as int == (a as int + b as int + c as int) - ab * TWO64;
    assert WrapAdd(a, c) as int + b as int == (a as int + b as int + c as int) - ac * TWO64;
    ModOfMultiple(a as int + b as int + c as int, ab);
    ModOfMultiple(a as int + b as int + c as int, ac);
  }
}
