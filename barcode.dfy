/** The barcode: for every homology dimension, a multiset of bars [i, j)
    stored as a map from the bar's endpoints to its multiplicity. */
module Barcodes {
  import opened Words

  type Bars = map<(nat, nat), u64>

  /** `bars_` grown to at least `len` maps, padding with empty maps. */
  function Grow(bars: seq<Bars>, len: nat): (r: seq<Bars>)
    ensures |r| == if |bars| < len then len else |bars|
    ensures forall d | 0 <= d < |bars| :: r[d] == bars[d]
    ensures forall d | |bars| <= d < |r| :: r[d] == map[]
  {
    if |bars| < len then bars + seq(len - |bars|, _ => map[]) else bars
  }

  /** The multiplicity of bar (i, j) in a map, 0 when absent (the default of `operator[]`). */
  function Count(b: Bars, i: nat, j: nat): u64 {
    if (i, j) in b then b[(i, j)] else 0
  }

  /** The value of `add(dim, i, j, k)` on `bars_`. */
  function AddBars(bars: seq<Bars>, dim: nat, i: nat, j: nat, k: u64): (r: seq<Bars>)
    ensures |r| > dim
  {
    var g := Grow(bars, dim + 1);
    g[dim := g[dim][(i, j) := WrapAdd(Count(g[dim], i, j), k)]]
  }

  class Barcode {
    var bars: seq<Bars>

    /** `Barcode()`: one dimension, with no bars. */
    constructor ()
      ensures bars == [map[]]
    {
      bars := [map[]];
    }

    /** `add(dim, i, j, numBars)`: reserves maps up to `dim`, then adds numBars to
        the multiplicity of bar (i, j) in dimension dim. */
    method Add(dim: nat, i: nat, j: nat, numBars: u64)
      modifies this
      ensures bars == AddBars(old(bars), dim, i, j, numBars)
    {
      while |bars| <= dim
        invariant old(|bars|) <= |bars| <= if old(|bars|) <= dim then dim + 1 else old(|bars|)
        invariant bars == Grow(old(bars), |bars|)
      {
        bars := bars + [map[]];
      }
      assert bars == Grow(old(bars), dim + 1);
      bars := bars[dim := bars[dim][(i, j) := WrapAdd(Count(bars[dim], i, j), numBars)]];
    }
  }

  // ---------------------------------------------------------------------
  // Properties of `add`

  /** `add` grows the dimension list to at least dim+1, and the new maps are empty
      except for the bar it adds. */
  lemma AddGrows(bars: seq<Bars>, dim: nat, i: nat, j: nat, k: u64)
    ensures var r := AddBars(bars, dim, i, j, k);
      && |r| == (if |bars| <= dim then dim + 1 else |bars|)
      && (forall d | |bars| <= d < |r| && d != dim :: r[d] == map[])
      && (dim >= |bars| ==> r[dim] == map[(i, j) := k])
  {
    var r := AddBars(bars, dim, i, j, k);
    if dim >= |bars| {
      assert Grow(bars, dim + 1)[dim] == map[];
      assert WrapAdd(0, k) == k;
    }
  }

  /** `add` increases the multiplicity of (i, j) by k, creating the key even when k is 0. */
  lemma AddIncrements(bars: seq<Bars>, dim: nat, i: nat, j: nat, k: u64)
    ensures var r := AddBars(bars, dim, i, j, k);
      && (i, j) in r[dim]
      && r[dim][(i, j)] == WrapAdd(if dim < |bars| then Count(bars[dim], i, j) else 0, k)
  {
  }

  /** `add` leaves every other dimension and every other bar unchanged. */
  lemma AddFrames(bars: seq<Bars>, dim: nat, i: nat, j: nat, k: u64)
    ensures var r := AddBars(bars, dim, i, j, k);
      && (forall d | 0 <= d < |bars| && d != dim :: r[d] == bars[d])
      && (dim < |bars| ==> forall key | key in bars[dim] && key != (i, j) :: key in r[dim] && r[dim][key] == bars[dim][key])
      && (forall key | key in r[dim] && key != (i, j) :: dim < |bars| && key in bars[dim])
  {
  }

  /** Two `add` calls commute. */
  lemma {:induction false} AddCommutes(bars: seq<Bars>, d1: nat, i1: nat, j1: nat, k1: u64,
                                         d2: nat, i2: nat, j2: nat, k2: u64)
    ensures AddBars(AddBars(bars, d1, i1, j1, k1), d2, i2, j2, k2)
         == AddBars(AddBars(bars, d2, i2, j2, k2), d1, i1, j1, k1)
  {
    var x := AddBars(AddBars(bars, d1, i1, j1, k1), d2, i2, j2, k2);
    var y := AddBars(AddBars(bars, d2, i2, j2, k2), d1, i1, j1, k1);
    var len := if |bars| <= d1 || |bars| <= d2 then (if d1 < d2 then d2 + 1 else d1 + 1) else |bars|;
    assert |x| == len && |y| == len;
    forall d | 0 <= d < len
      ensures x[d] == y[d]
    {
      var b := if d < |bars| then bars[d] else map[];
      if d == d1 && d == d2 && (i1, j1) == (i2, j2) {
        Words.AddCommutes(Count(b, i1, j1), k1, k2);
      }
      assert x[d] == y[d];
    }
  }
}
