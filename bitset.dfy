/** `std::bitset<NUMBITS>` with NUMBITS = 64, as the unsigned word `to_ullong()`.
    Bit j of a word x is bit j of its binary expansion; shifts, `&` and `|` are
    defined bit by bit, and `+`, `-`, `*` (which go through `to_ullong()`) wrap
    around modulo 2^64. */
module Bitsets {
  import opened Words

  const NUMBITS: nat := 64

  type Bits = u64

  function Pow2(k: nat): (r: nat)
    ensures r >= 1
  {
    if k == 0 then 1 else 2 * Pow2(k - 1)
  }

  /** `ALLONES`, `BIGONE` (only the top bit) and `SMALLONE` (only the bottom bit). */
  const ALLONES: Bits := 0xFFFF_FFFF_FFFF_FFFF
  const BIGONE: Bits := 0x8000_0000_0000_0000
  const SMALLONE: Bits := 1

  /** Bit j of x. */
  predicate Bit(x: nat, j: nat) {
    if j == 0 then x % 2 == 1 else Bit(x / 2, j - 1)
  }

  // ---------------------------------------------------------------------
  // Word operations

  /** `x >> s`: bits move down by s places; shifting by NUMBITS or more clears them all. */
  function ShiftRight(x: Bits, s: nat): (r: Bits)
    ensures forall j: nat {:trigger Bit(r as nat, j)} :: Bit(r as nat, j) == (j + s < NUMBITS && Bit(x as nat, j + s))
  {
    Pow2Is64();
    HighBitsClear(x as nat, NUMBITS);
    if s >= NUMBITS then ZeroHasNoBits(); 0
    else Halve(x as nat, s) as Bits
  }

  /** `x << s`: bits move up by s places, and those pushed past the top bit are lost. */
  function ShiftLeft(x: Bits, s: nat): (r: Bits)
    ensures forall j: nat {:trigger Bit(r as nat, j)} :: Bit(r as nat, j) == (s <= j < NUMBITS && Bit(x as nat, j - s))
  {
    Pow2Is64();
    if s >= NUMBITS then ZeroHasNoBits(); 0
    else Double(x as nat, s, NUMBITS) as Bits
  }

  /** `x & y`. */
  function And(x: Bits, y: Bits): (r: Bits)
    ensures forall j: nat {:trigger Bit(r as nat, j)} :: Bit(r as nat, j) == (Bit(x as nat, j) && Bit(y as nat, j))
  {
    Pow2Is64();
    AndBelow(x as nat, y as nat, NUMBITS);
    AndBits(x as nat, y as nat);
    AndNat(x as nat, y as nat) as Bits
  }

  /** `x | y`. */
  function Or(x: Bits, y: Bits): (r: Bits)
    ensures forall j: nat {:trigger Bit(r as nat, j)} :: Bit(r as nat, j) == (Bit(x as nat, j) || Bit(y as nat, j))
  {
    Pow2Is64();
    OrBelow(x as nat, y as nat, NUMBITS);
    OrBits(x as nat, y as nat);
    OrNat(x as nat, y as nat) as Bits
  }

  /** A word is determined by its NUMBITS bits. */
  lemma BitsDetermine(x: Bits, y: Bits)
    requires forall j: nat {:trigger Bit(x as nat, j)} | j < NUMBITS :: Bit(x as nat, j) == Bit(y as nat, j)
    ensures x == y
  {
    Pow2Is64();
    BitsDetermineBelow(x as nat, y as nat, NUMBITS);
  }

  /** The bits of the three constants: `SMALLONE` has only bit 0, `BIGONE` only
      bit 63 and `ALLONES` all 64 bits. */
  lemma SingleBits()
    ensures forall j: nat {:trigger Bit(SMALLONE as nat, j)} :: Bit(SMALLONE as nat, j) == (j == 0)
    ensures forall j: nat {:trigger Bit(BIGONE as nat, j)} :: Bit(BIGONE as nat, j) == (j == NUMBITS - 1)
    ensures forall j: nat {:trigger Bit(ALLONES as nat, j)} :: Bit(ALLONES as nat, j) == (j < NUMBITS)
  {
    Pow2Is64();
    assert Bit(1, 0);
    forall j: nat | j > 0 ensures !Bit(1, j) {
      ZeroHasNoBits();
      assert Bit(1, j) == Bit(0, j - 1);
    }
    assert BIGONE as nat == Pow2(NUMBITS - 1) by {
      Pow2Add(32, 31);
      Pow2Add(16, 15);
      Pow2Add(16, 16);
      Pow2Add(8, 7);
      Pow2Add(8, 8);
      Pow2Add(4, 4);
    }
    PowerBits(NUMBITS - 1);
    AllOnesBits(NUMBITS, ALLONES as nat);
  }

  // ---------------------------------------------------------------------
  // Compound assignments on a word held in a buffer

  /** `lhs += rhs`: stores lhs + rhs in lhs and returns it. */
  method PlusAssign(v: array<Bits>, k: nat, rhs: Bits) returns (r: Bits)
    requires k < v.Length
    modifies v
    ensures v[..] == old(v[..])[k := WrapAdd(old(v[k]), rhs)]
    ensures r == v[k]
  {
    v[k] := WrapAdd(v[k], rhs);
    r := v[k];
  }

  /** `lhs -= rhs`: stores lhs - rhs in lhs and returns it. */
  method MinusAssign(v: array<Bits>, k: nat, rhs: Bits) returns (r: Bits)
    requires k < v.Length
    modifies v
    ensures v[..] == old(v[..])[k := WrapSub(old(v[k]), rhs)]
    ensures r == v[k]
  {
    v[k] := WrapSub(v[k], rhs);
    r := v[k];
  }

  /** `lhs *= rhs`: stores lhs * rhs in lhs and returns it. */
  method TimesAssign(v: array<Bits>, k: nat, rhs: Bits) returns (r: Bits)
    requires k < v.Length
    modifies v
    ensures v[..] == old(v[..])[k := WrapMul(old(v[k]), rhs)]
    ensures r == v[k]
  {
    v[k] := WrapMul(v[k], rhs);
    r := v[k];
  }

  // ---------------------------------------------------------------------
  // Binary expansions of naturals

  function Halve(x: nat, s: nat): (r: nat)
    ensures r <= x
    ensures forall j: nat {:trigger Bit(r, j)} :: Bit(r, j) == Bit(x, j + s)
  {
    if s == 0 then x
    else
      var h := Halve(x / 2, s - 1);
      assert forall j: nat {:trigger Bit(h, j)} :: Bit(h, j) == Bit(x, j + s) by {
        forall j: nat ensures Bit(h, j) == Bit(x, j + s) {
          assert Bit(x, j + s) == Bit(x / 2, j + s - 1);
        }
      }
      h
  }

  /** x doubled s times, keeping the bits below `width`. */
  function Double(x: nat, s: nat, width: nat): (r: nat)
    requires x < Pow2(width)
    ensures r < Pow2(width)
    ensures forall j: nat {:trigger Bit(r, j)} :: Bit(r, j) == (s <= j < width && Bit(x, j - s))
    decreases s
  {
    HighBitsClear(x, width);
    if s == 0 then x
    else
      var y := DoubleOnce(x, width);
      var r := Double(y, s - 1, width);
      assert forall j: nat {:trigger Bit(r, j)} :: Bit(r, j) == (s <= j < width && Bit(x, j - s)) by {
        forall j: nat ensures Bit(r, j) == (s <= j < width && Bit(x, j - s)) {
          if s - 1 <= j < width {
            assert Bit(y, j - (s - 1)) == (1 <= j - (s - 1) < width && Bit(x, j - (s - 1) - 1));
          }
        }
      }
      r
  }

  /** 2x with the bit at `width` dropped. */
  function DoubleOnce(x: nat, width: nat): (r: nat)
    requires x < Pow2(width)
    ensures r < Pow2(width)
    ensures forall j: nat {:trigger Bit(r, j)} :: Bit(r, j) == (1 <= j < width && Bit(x, j - 1))
  {
    HighBitsClear(x, width);
    if width == 0 then 0
    else
      var d := 2 * x;
      assert forall j: nat {:trigger Bit(d, j)} :: Bit(d, j) == (1 <= j && Bit(x, j - 1)) by {
        forall j: nat ensures Bit(d, j) == (1 <= j && Bit(x, j - 1)) {
          assert d / 2 == x;
        }
      }
      if d < Pow2(width) then
        HighBitsClear(d, width);
        d
      else
        DropTop(d, width);
        d - Pow2(width)
  }

  /** Removing the top power of two keeps every lower bit. */
  lemma {:induction false} DropTop(z: nat, k: nat)
    requires k >= 1 && Pow2(k) <= z < 2 * Pow2(k)
    ensures z - Pow2(k) < Pow2(k)
    ensures forall j: nat {:trigger Bit(z - Pow2(k), j)} :: Bit(z - Pow2(k), j) == (j < k && Bit(z, j))
  {
    HighBitsClear(z - Pow2(k), k);
    forall j: nat | j < k
      ensures Bit(z - Pow2(k), j) == Bit(z, j)
    {
      LowBitsOfDifference(z, k, j);
    }
  }

  lemma {:induction false} LowBitsOfDifference(z: nat, k: nat, j: nat)
    requires j < k && Pow2(k) <= z
    ensures Bit(z - Pow2(k), j) == Bit(z, j)
    decreases j
  {
    var p := Pow2(k);
    assert p == 2 * Pow2(k - 1);
    if j > 0 {
      assert (z - p) / 2 == z / 2 - Pow2(k - 1);
      LowBitsOfDifference(z / 2, k - 1, j - 1);
    }
  }

  /** A natural below 2^k has no bit at k or above. */
  lemma {:induction false} HighBitsClear(x: nat, k: nat)
    requires x < Pow2(k)
    ensures forall j: nat {:trigger Bit(x, j)} | j >= k :: !Bit(x, j)
    decreases k
  {
    if k == 0 {
      assert x == 0;
      ZeroHasNoBits();
    } else {
      HighBitsClear(x / 2, k - 1);
      forall j: nat | j >= k ensures !Bit(x, j) {
        assert Bit(x, j) == Bit(x / 2, j - 1);
      }
    }
  }

  lemma ZeroHasNoBits()
    ensures forall j: nat {:trigger Bit(0, j)} :: !Bit(0, j)
  {
    forall j: nat ensures !Bit(0, j) {
      ZeroBit(j);
    }
  }

  lemma {:induction false} ZeroBit(j: nat)
    ensures !Bit(0, j)
  {
    if j > 0 {
      ZeroBit(j - 1);
    }
  }

  lemma {:induction false} PowerBits(k: nat)
    ensures forall j: nat {:trigger Bit(Pow2(k), j)} :: Bit(Pow2(k), j) == (j == k)
  {
    ZeroHasNoBits();
    if k > 0 {
      PowerBits(k - 1);
      forall j: nat ensures Bit(Pow2(k), j) == (j == k) {
        if j > 0 {
          assert Pow2(k) / 2 == Pow2(k - 1);
        }
      }
    }
  }

  lemma {:induction false} AllOnesBits(k: nat, x: nat)
    requires x == Pow2(k) - 1
    ensures forall j: nat {:trigger Bit(x, j)} :: Bit(x, j) == (j < k)
  {
    ZeroHasNoBits();
    if k > 0 {
      AllOnesBits(k - 1, x / 2);
      forall j: nat ensures Bit(x, j) == (j < k) {
        if j > 0 {
          assert Bit(x, j) == Bit(x / 2, j - 1);
        }
      }
    }
  }

  lemma {:induction false} BitsDetermineBelow(x: nat, y: nat, k: nat)
    requires x < Pow2(k) && y < Pow2(k)
    requires forall j: nat | j < k :: Bit(x, j) == Bit(y, j)
    ensures x == y
    decreases k
  {
    if k > 0 {
      forall j: nat | j < k - 1 ensures Bit(x / 2, j) == Bit(y / 2, j) {
        assert Bit(x, j + 1) == Bit(x / 2, j);
        assert Bit(y, j + 1) == Bit(y / 2, j);
      }
      BitsDetermineBelow(x / 2, y / 2, k - 1);
      assert Bit(x, 0) == Bit(y, 0);
    }
  }

  lemma {:induction false} Pow2Add(a: nat, b: nat)
    ensures Pow2(a + b) == Pow2(a) * Pow2(b)
    decreases b
  {
    if b > 0 {
      Pow2Add(a, b - 1);
    }
  }

  lemma Pow2Is64()
    ensures Pow2(NUMBITS) == TWO64
  {
    assert Pow2(2) == 4;
    Pow2Add(2, 2);
    assert Pow2(4) == 0x10;
    Pow2Add(4, 4);
    assert Pow2(8) == 0x100;
    Pow2Add(8, 8);
    assert Pow2(16) == 0x1_0000;
    Pow2Add(16, 16);
    assert Pow2(32) == 0x1_0000_0000;
    Pow2Add(32, 32);
  }

  function AndNat(x: nat, y: nat): nat {
    if x == 0 || y == 0 then 0
    else 2 * AndNat(x / 2, y / 2) + (if x % 2 == 1 && y % 2 == 1 then 1 else 0)
  }

  function OrNat(x: nat, y: nat): nat {
    if x == 0 then y
    else if y == 0 then x
    else 2 * OrNat(x / 2, y / 2) + (if x % 2 == 1 || y % 2 == 1 then 1 else 0)
  }

  lemma {:induction false} AndBits(x: nat, y: nat)
    ensures forall j: nat {:trigger Bit(AndNat(x, y), j)} :: Bit(AndNat(x, y), j) == (Bit(x, j) && Bit(y, j))
  {
    ZeroHasNoBits();
    if x != 0 && y != 0 {
      AndBits(x / 2, y / 2);
      var r := AndNat(x, y);
      forall j: nat ensures Bit(r, j) == (Bit(x, j) && Bit(y, j)) {
        assert r / 2 == AndNat(x / 2, y / 2);
      }
    }
  }

  lemma {:induction false} OrBits(x: nat, y: nat)
    ensures forall j: nat {:trigger Bit(OrNat(x, y), j)} :: Bit(OrNat(x, y), j) == (Bit(x, j) || Bit(y, j))
  {
    ZeroHasNoBits();
    if x != 0 && y != 0 {
      OrBits(x / 2, y / 2);
      var r := OrNat(x, y);
      forall j: nat ensures Bit(r, j) == (Bit(x, j) || Bit(y, j)) {
        assert r / 2 == OrNat(x / 2, y / 2);
      }
    }
  }

  lemma {:induction false} AndBelow(x: nat, y: nat, k: nat)
    requires x < Pow2(k)
    ensures AndNat(x, y) < Pow2(k)
    decreases k
  {
    if k > 0 && x != 0 && y != 0 {
      AndBelow(x / 2, y / 2, k - 1);
    }
  }

  lemma {:induction false} OrBelow(x: nat, y: nat, k: nat)
    requires x < Pow2(k) && y < Pow2(k)
    ensures OrNat(x, y) < Pow2(k)
    decreases k
  {
    if k > 0 && x != 0 && y != 0 {
      OrBelow(x / 2, y / 2, k - 1);
    }
  }
}
