/** Cubical simplices. A simplex is a centre point, a depth and a dimension;
    the coordinates of the centre split into the directions along which the
    cube extends and the others. The boundary of a simplex is a chain of its
    facets with alternating signs, and its expansions are the simplices one
    level deeper that lie inside a region. */
module Simplices {
  import opened Words
  import opened Bitsets
  import opened Points
  import opened Regions

  /** The constructor also stores the centre's directions at the depth; they
      are determined by the centre and the depth, so here they are the
      functions `DirsOf` and `NonDirsOf`. */
  datatype CSimplex = CSimplex(center: Point, depth: nat, dim: nat)

  /** `directions_`: the constructor passes the depth as a `uint8_t`. */
  function DirsOf(s: CSimplex): seq<nat> {
    Dirs(s.center, s.depth % 256)
  }

  /** `nondirections_`. */
  function NonDirsOf(s: CSimplex): seq<nat> {
    NonDirs(s.center, s.depth % 256)
  }

  /** A simplex built from a point `Point(coors)` made. */
  predicate SimplexWf(s: CSimplex) {
    Wf(s.center)
  }

  /** The constructor's split: the directions are the coordinates whose bit
      for the depth is clear, the nondirections the others, both in increasing
      order and together every coordinate exactly once. */
  lemma SplitIsPartition(s: CSimplex)
    ensures Increasing(DirsOf(s)) && Increasing(NonDirsOf(s))
    ensures forall k: nat :: k in DirsOf(s) <==> k < |s.center.coors| && IsDirection(s.center, s.depth % 256, k)
    ensures forall k: nat :: k in NonDirsOf(s) <==> k < |s.center.coors| && !IsDirection(s.center, s.depth % 256, k)
    ensures |DirsOf(s)| + |NonDirsOf(s)| == |s.center.coors|
  {
    SplitPartitions(s.center, s.depth % 256, |s.center.coors|);
  }

  // ---------------------------------------------------------------------
  // Order and equality

  /** `s < t`: by dimension, then depth, then centre. */
  predicate Less(s: CSimplex, t: CSimplex)
    requires |s.center.coors| <= |t.center.coors|
  {
    if s.dim < t.dim then true
    else if s.dim > t.dim then false
    else if s.depth < t.depth then true
    else if s.depth > t.depth then false
    else Points.Less(s.center, t.center)
  }

  /** `s == t`: equal dimension, depth and centre. */
  predicate Eq(s: CSimplex, t: CSimplex)
    requires s.center.dim <= |s.center.coors| && t.center.dim <= |t.center.coors|
  {
    s.dim == t.dim && s.depth == t.depth && Points.Eq(s.center, t.center)
  }

  /** On constructed simplices of one ambient dimension, `==` is equality of
      values and `<` is a strict total order, so a map keyed by `<` identifies
      exactly the equal simplices. */
  lemma EqIsEquality(s: CSimplex, t: CSimplex)
    requires SimplexWf(s) && SimplexWf(t)
    ensures Eq(s, t) <==> s == t
  {
    Points.EqIsEquality(s.center, t.center);
  }

  lemma LessTrichotomy(s: CSimplex, t: CSimplex)
    requires SimplexWf(s) && SimplexWf(t) && s.center.dim == t.center.dim
    ensures Less(s, t) || Less(t, s) || s == t
    ensures !(Less(s, t) && Less(t, s))
    ensures s == t ==> !Less(s, t)
  {
    Points.LessTrichotomy(s.center, t.center);
    Points.EqIsEquality(s.center, t.center);
  }

  lemma LessTransitive(s: CSimplex, t: CSimplex, u: CSimplex)
    requires |s.center.coors| == |t.center.coors| == |u.center.coors|
    requires Less(s, t) && Less(t, u)
    ensures Less(s, u)
  {
    if s.dim == t.dim == u.dim && s.depth == t.depth == u.depth {
      Points.LessTransitive(s.center, t.center, u.center);
    }
  }

  // ---------------------------------------------------------------------
  // Chains

  /** The coefficient of s in a chain: absent keys read as 0, as `std::map::operator[]` does. */
  function Coef(m: map<CSimplex, int>, s: CSimplex): int {
    if s in m then m[s] else 0
  }

  /** An element of the chain complex: integer coefficients on simplices. */
  class CChain {
    var simplices: map<CSimplex, int>

    constructor ()
      ensures simplices == map[]
    {
      simplices := map[];
    }

    /** `chain += s`. */
    method Plus(s: CSimplex)
      modifies this
      ensures simplices == old(simplices)[s := Coef(old(simplices), s) + 1]
    {
      simplices := simplices[s := Coef(simplices, s) + 1];
    }

    /** `chain -= s`. */
    method Minus(s: CSimplex)
      modifies this
      ensures simplices == old(simplices)[s := Coef(old(simplices), s) - 1]
    {
      simplices := simplices[s := Coef(simplices, s) - 1];
    }
  }

  /** Adding signed simplices to a chain one after another. */
  function Accumulate(m: map<CSimplex, int>, ts: seq<(CSimplex, int)>): map<CSimplex, int>
    decreases |ts|
  {
    if ts == [] then m
    else Accumulate(m[ts[0].0 := Coef(m, ts[0].0) + ts[0].1], ts[1..])
  }

  /** The total sign the terms give to s. */
  function SignOf(ts: seq<(CSimplex, int)>, s: CSimplex): int
    decreases |ts|
  {
    if ts == [] then 0
    else (if ts[0].0 == s then ts[0].1 else 0) + SignOf(ts[1..], s)
  }

  function SumSigns(ts: seq<(CSimplex, int)>): int
    decreases |ts|
  {
    if ts == [] then 0 else ts[0].1 + SumSigns(ts[1..])
  }

  lemma {:induction false} AccumulateAppend(m: map<CSimplex, int>, xs: seq<(CSimplex, int)>, ys: seq<(CSimplex, int)>)
    ensures Accumulate(m, xs + ys) == Accumulate(Accumulate(m, xs), ys)
    decreases |xs|
  {
    if xs == [] {
      assert xs + ys == ys;
    } else {
      assert (xs + ys)[0] == xs[0] && (xs + ys)[1..] == xs[1..] + ys;
      AccumulateAppend(m[xs[0].0 := Coef(m, xs[0].0) + xs[0].1], xs[1..], ys);
    }
  }

  /** Accumulating adds each term's sign to the coefficient of its simplex. */
  lemma {:induction false} AccumulateCoef(m: map<CSimplex, int>, ts: seq<(CSimplex, int)>, s: CSimplex)
    ensures Coef(Accumulate(m, ts), s) == Coef(m, s) + SignOf(ts, s)
    decreases |ts|
  {
    if ts != [] {
      AccumulateCoef(m[ts[0].0 := Coef(m, ts[0].0) + ts[0].1], ts[1..], s);
    }
  }

  /** t occurs among the simplices of the terms. */
  predicate InTerms(ts: seq<(CSimplex, int)>, f: CSimplex)
    decreases |ts|
  {
    ts != [] && (ts[0].0 == f || InTerms(ts[1..], f))
  }

  /** The keys of the result are the chain's keys and the simplices of the terms. */
  lemma {:induction false} AccumulateKeys(m: map<CSimplex, int>, ts: seq<(CSimplex, int)>, f: CSimplex)
    ensures f in Accumulate(m, ts) <==> f in m || InTerms(ts, f)
    decreases |ts|
  {
    if ts != [] {
      AccumulateKeys(m[ts[0].0 := Coef(m, ts[0].0) + ts[0].1], ts[1..], f);
    }
  }

  /** Two terms of opposite sign. */
  lemma AccumulatePair(m: map<CSimplex, int>, x: CSimplex, y: CSimplex, rest: seq<(CSimplex, int)>)
    ensures var m' := m[x := Coef(m, x) + 1];
      Accumulate(m, [(x, 1), (y, -1)] + rest) == Accumulate(m'[y := Coef(m', y) - 1], rest)
  {
    var ts := [(x, 1), (y, -1)] + rest;
    assert ts[0] == (x, 1) && ts[1..][0] == (y, -1) && ts[1..][1..] == rest;
  }

  // ---------------------------------------------------------------------
  // The differential

  /** `BIGONE >> depth`: the distance from the centre of a cell of this depth to its faces. */
  function HalfSide(depth: nat): Bits {
    ShiftRight(BIGONE, depth)
  }

  /** The point with coordinate d moved by shift up (`+=`) or down (`-=`). */
  function Moved(c: Point, d: nat, shift: Bits, up: bool): (r: Point)
    requires d < |c.coors|
    ensures r.dim == c.dim && |r.coors| == |c.coors|
  {
    Point(c.dim, c.coors[d := if up then WrapAdd(c.coors[d], shift) else WrapSub(c.coors[d], shift)])
  }

  /** The facet of s across its u-th direction, on the upper or the lower side. */
  function Face(s: CSimplex, u: nat, up: bool): (f: CSimplex)
    requires SimplexWf(s) && s.dim >= 1 && u < |DirsOf(s)|
    ensures SimplexWf(f) && f.dim == s.dim - 1 && f.depth == s.depth
  {
    SplitIsPartition(s);
    assert DirsOf(s)[u] in DirsOf(s);
    CSimplex(Moved(s.center, DirsOf(s)[u], HalfSide(s.depth), up), s.depth, s.dim - 1)
  }

  /** The terms the loop adds from the t-th direction on, `rotate` flipping at each. */
  function TermsFrom(s: CSimplex, t: nat, rotate: bool): seq<(CSimplex, int)>
    requires SimplexWf(s) && s.dim >= 1 && t <= |DirsOf(s)|
    decreases |DirsOf(s)| - t
  {
    if t == |DirsOf(s)| then []
    else [(Face(s, t, !rotate), 1), (Face(s, t, rotate), -1)] + TermsFrom(s, t + 1, !rotate)
  }

  /** Adding the terms from direction t: the two faces across it, then the rest. */
  lemma AccumulateFaces(m: map<CSimplex, int>, s: CSimplex, t: nat, rotate: bool)
    requires SimplexWf(s) && s.dim >= 1 && t < |DirsOf(s)|
    ensures var m' := m[Face(s, t, !rotate) := Coef(m, Face(s, t, !rotate)) + 1];
      Accumulate(m, TermsFrom(s, t, rotate))
      == Accumulate(m'[Face(s, t, rotate) := Coef(m', Face(s, t, rotate)) - 1], TermsFrom(s, t + 1, !rotate))
  {
    AccumulatePair(m, Face(s, t, !rotate), Face(s, t, rotate), TermsFrom(s, t + 1, !rotate));
  }

  /** The chain after the two faces across direction t are added. */
  lemma DifferentialStepped(before: map<CSimplex, int>, after: map<CSimplex, int>, s: CSimplex, t: nat, rotate: bool)
    requires SimplexWf(s) && s.dim >= 1 && t < |DirsOf(s)|
    requires var m' := before[Face(s, t, !rotate) := Coef(before, Face(s, t, !rotate)) + 1];
      after == m'[Face(s, t, rotate) := Coef(m', Face(s, t, rotate)) - 1]
    ensures Accumulate(before, TermsFrom(s, t, rotate)) == Accumulate(after, TermsFrom(s, t + 1, !rotate))
  {
    AccumulateFaces(before, s, t, rotate);
  }

  /** The chain `differential()` returns. */
  function DifferentialOf(s: CSimplex): map<CSimplex, int>
    requires SimplexWf(s)
  {
    if s.dim == 0 then map[] else Accumulate(map[], TermsFrom(s, 0, false))
  }

  /** `differential()`: for each direction, the two facets with opposite signs,
      the sign pattern alternating from one direction to the next. */
  method Differential(s: CSimplex) returns (chain: CChain)
    requires SimplexWf(s)
    ensures fresh(chain) && chain.simplices == DifferentialOf(s)
  {
    chain := new CChain();
    if s.dim == 0 {
      return;
    }
    var shift := ShiftRight(BIGONE, s.depth);
    var rotate := false;
    var t := 0;
    while t < |DirsOf(s)|
      invariant 0 <= t <= |DirsOf(s)|
      invariant Accumulate(chain.simplices, TermsFrom(s, t, rotate)) == DifferentialOf(s)
    {
      AddFaces(chain, s, t, rotate, shift);
      rotate := !rotate;
      t := t + 1;
    }
  }

  /** One pass of that loop: the two facets across direction t, the one
      moved up by the half side added and the other subtracted, or the
      other way round when `rotate` is set. */
  method AddFaces(chain: CChain, s: CSimplex, t: nat, rotate: bool, shift: Bits)
    requires SimplexWf(s) && s.dim >= 1 && t < |DirsOf(s)| && shift == ShiftRight(BIGONE, s.depth)
    modifies chain
    ensures Accumulate(old(chain.simplices), TermsFrom(s, t, rotate)) == Accumulate(chain.simplices, TermsFrom(s, t + 1, !rotate))
  {
    var d := DirsOf(s)[t];
    SplitIsPartition(s);
    assert d in DirsOf(s);
    var a := Point(s.center.dim, s.center.coors[d := WrapAdd(s.center.coors[d], shift)]);
    var b := Point(s.center.dim, s.center.coors[d := WrapSub(s.center.coors[d], shift)]);
    var fa := CSimplex(a, s.depth, s.dim - 1);
    var fb := CSimplex(b, s.depth, s.dim - 1);
    assert fa == Face(s, t, true) && fb == Face(s, t, false);
    if !rotate {
      chain.Plus(fa);
      chain.Minus(fb);
    } else {
      chain.Plus(fb);
      chain.Minus(fa);
    }
    DifferentialStepped(old(chain.simplices), chain.simplices, s, t, rotate);
  }

  /** The terms come in pairs of opposite signs, so their signs total zero. */
  lemma {:induction false} TermsCancel(s: CSimplex, t: nat, rotate: bool)
    requires SimplexWf(s) && s.dim >= 1 && t <= |DirsOf(s)|
    ensures SumSigns(TermsFrom(s, t, rotate)) == 0
    decreases |DirsOf(s)| - t
  {
    if t < |DirsOf(s)| {
      TermsCancel(s, t + 1, !rotate);
      var ts := TermsFrom(s, t, rotate);
      assert ts[1..][1..] == TermsFrom(s, t + 1, !rotate);
    }
  }

  /** One unfolding of the terms: the two facets across t, then the rest. */
  lemma InTermsStep(s: CSimplex, t: nat, rotate: bool, f: CSimplex)
    requires SimplexWf(s) && s.dim >= 1 && t < |DirsOf(s)|
    ensures InTerms(TermsFrom(s, t, rotate), f) <==>
      f == Face(s, t, !rotate) || f == Face(s, t, rotate) || InTerms(TermsFrom(s, t + 1, !rotate), f)
  {
    var ts := TermsFrom(s, t, rotate);
    assert ts[0].0 == Face(s, t, !rotate) && ts[1..][0].0 == Face(s, t, rotate);
    assert ts[1..][1..] == TermsFrom(s, t + 1, !rotate);
  }

  /** Every simplex of the terms is a facet across some direction from t on. */
  lemma {:induction false} TermsKeysSound(s: CSimplex, t: nat, rotate: bool, f: CSimplex)
    requires SimplexWf(s) && s.dim >= 1 && t <= |DirsOf(s)|
    requires InTerms(TermsFrom(s, t, rotate), f)
    ensures exists u, up: bool | t <= u < |DirsOf(s)| :: f == Face(s, u, up)
    decreases |DirsOf(s)| - t
  {
    if t < |DirsOf(s)| {
      InTermsStep(s, t, rotate, f);
      if f == Face(s, t, !rotate) {
        assert t <= t < |DirsOf(s)| && f == Face(s, t, !rotate);
      } else if f == Face(s, t, rotate) {
        assert t <= t < |DirsOf(s)| && f == Face(s, t, rotate);
      } else {
        TermsKeysSound(s, t + 1, !rotate, f);
        var u, up: bool :| t + 1 <= u < |DirsOf(s)| && f == Face(s, u, up);
        assert t <= u < |DirsOf(s)| && f == Face(s, u, up);
      }
    }
  }

  /** Every facet across a direction from t on is among the terms. */
  lemma {:induction false} TermsKeysComplete(s: CSimplex, t: nat, rotate: bool, u: nat, up: bool)
    requires SimplexWf(s) && s.dim >= 1 && t <= u < |DirsOf(s)|
    ensures InTerms(TermsFrom(s, t, rotate), Face(s, u, up))
    decreases u - t
  {
    InTermsStep(s, t, rotate, Face(s, u, up));
    if u == t {
      assert Face(s, u, up) == Face(s, t, !rotate) || Face(s, u, up) == Face(s, t, rotate);
    } else {
      TermsKeysComplete(s, t + 1, !rotate, u, up);
    }
  }

  /** The simplices of the terms are the two facets across each direction from t on. */
  lemma TermsKeys(s: CSimplex, t: nat, rotate: bool, f: CSimplex)
    requires SimplexWf(s) && s.dim >= 1 && t <= |DirsOf(s)|
    ensures InTerms(TermsFrom(s, t, rotate), f) <==> exists u, up: bool | t <= u < |DirsOf(s)| :: f == Face(s, u, up)
  {
    if InTerms(TermsFrom(s, t, rotate), f) {
      TermsKeysSound(s, t, rotate, f);
    }
    if exists u, up: bool | t <= u < |DirsOf(s)| :: f == Face(s, u, up) {
      var u, up: bool :| t <= u < |DirsOf(s)| && f == Face(s, u, up);
      TermsKeysComplete(s, t, rotate, u, up);
    }
  }

  /** The sign the loop gives the upper or lower facet of direction u when it
      reaches direction t with the given rotation: +1 on the upper facet at
      every second direction, starting with the first. */
  function FaceSign(u: nat, up: bool, t: nat, rotate: bool): int
    requires t <= u
  {
    if (up == !rotate) == ((u - t) % 2 == 0) then 1 else -1
  }

  lemma {:induction false} TermsSign(s: CSimplex, t: nat, rotate: bool, u: nat, up: bool)
    requires SimplexWf(s) && s.dim >= 1 && t <= |DirsOf(s)| && u < |DirsOf(s)|
    requires 1 <= s.depth < NUMBITS
    ensures SignOf(TermsFrom(s, t, rotate), Face(s, u, up)) == if u < t then 0 else FaceSign(u, up, t, rotate)
    decreases |DirsOf(s)| - t
  {
    if t < |DirsOf(s)| {
      var f := Face(s, u, up);
      TermsSign(s, t + 1, !rotate, u, up);
      TermsStep(s, t, rotate, f);
      FaceInjective(s, t, !rotate, u, up);
      FaceInjective(s, t, rotate, u, up);
      if u > t {
        SignShift(u, up, t, rotate);
      }
    }
  }

  /** The first direction's two terms, then the rest. */
  lemma TermsStep(s: CSimplex, t: nat, rotate: bool, f: CSimplex)
    requires SimplexWf(s) && s.dim >= 1 && t < |DirsOf(s)|
    ensures SignOf(TermsFrom(s, t, rotate), f) ==
      (if Face(s, t, !rotate) == f then 1 else 0) + (if Face(s, t, rotate) == f then -1 else 0)
      + SignOf(TermsFrom(s, t + 1, !rotate), f)
  {
    var ts := TermsFrom(s, t, rotate);
    assert ts[0] == (Face(s, t, !rotate), 1) && ts[1..][0] == (Face(s, t, rotate), -1);
    assert ts[1..][1..] == TermsFrom(s, t + 1, !rotate);
  }

  lemma SignShift(u: nat, up: bool, t: nat, rotate: bool)
    requires t < u
    ensures FaceSign(u, up, t + 1, !rotate) == FaceSign(u, up, t, rotate)
  {
    assert ((u - (t + 1)) % 2 == 0) <==> !((u - t) % 2 == 0);
  }

  /** `BIGONE >> depth` for depth 1 .. NUMBITS - 1 is neither 0 nor BIGONE. */
  lemma HalfSideBounds(depth: nat)
    requires 1 <= depth < NUMBITS
    ensures 0 < HalfSide(depth) as int && HalfSide(depth) != BIGONE
  {
    SingleBits();
    ZeroHasNoBits();
    var h := HalfSide(depth);
    assert Bit(h as nat, NUMBITS - 1 - depth);
    assert !Bit(h as nat, NUMBITS - 1);
  }

  /** Moving a word up or down by h, with h neither 0 nor half the range,
      gives three different words. */
  lemma MovesDiffer(x: Bits, h: Bits)
    requires 0 < h as int && h != BIGONE
    ensures WrapAdd(x, h) != x && WrapSub(x, h) != x && WrapAdd(x, h) != WrapSub(x, h)
  {
  }

  /** For depths 1 .. NUMBITS - 1 the facets of a simplex are pairwise distinct. */
  lemma FaceInjective(s: CSimplex, u: nat, up: bool, v: nat, vp: bool)
    requires SimplexWf(s) && s.dim >= 1 && 1 <= s.depth < NUMBITS
    requires u < |DirsOf(s)| && v < |DirsOf(s)|
    ensures Face(s, u, up) == Face(s, v, vp) <==> u == v && up == vp
  {
    if Face(s, u, up) == Face(s, v, vp) {
      var h := HalfSide(s.depth);
      HalfSideBounds(s.depth);
      SplitIsPartition(s);
      var d, e := DirsOf(s)[u], DirsOf(s)[v];
      assert d in DirsOf(s) && e in DirsOf(s);
      var x := s.center.coors[d];
      MovesDiffer(x, h);
      assert Face(s, u, up).center.coors[d] == Face(s, v, vp).center.coors[d];
    }
  }

  /** The differential of a simplex of dimension at least 1: its keys are
      exactly the facets across the directions, and its coefficients total
      zero. For depths 1 .. NUMBITS - 1 the facets are distinct and
      direction u contributes +1 to its upper facet and -1 to its lower one
      when u is even, and the reverse when u is odd. */
  lemma DifferentialSpec(s: CSimplex)
    requires SimplexWf(s) && s.dim >= 1
    ensures SumSigns(TermsFrom(s, 0, false)) == 0
    ensures forall f :: Coef(DifferentialOf(s), f) == SignOf(TermsFrom(s, 0, false), f)
    ensures forall f :: f in DifferentialOf(s) <==>
      exists u, up: bool | 0 <= u < |DirsOf(s)| :: f == Face(s, u, up)
    ensures 1 <= s.depth < NUMBITS ==> forall u, up: bool | 0 <= u < |DirsOf(s)| ::
      DifferentialOf(s)[Face(s, u, up)] == if up == (u % 2 == 0) then 1 else -1
  {
    TermsCancel(s, 0, false);
    var ts := TermsFrom(s, 0, false);
    forall f ensures Coef(DifferentialOf(s), f) == SignOf(ts, f) && (f in DifferentialOf(s) <==> InTerms(ts, f)) {
      AccumulateCoef(map[], ts, f);
      AccumulateKeys(map[], ts, f);
    }
    forall f ensures InTerms(ts, f) <==> exists u, up: bool | 0 <= u < |DirsOf(s)| :: f == Face(s, u, up) {
      TermsKeys(s, 0, false, f);
    }
    if 1 <= s.depth < NUMBITS {
      forall u, up: bool | 0 <= u < |DirsOf(s)|
        ensures DifferentialOf(s)[Face(s, u, up)] == if up == (u % 2 == 0) then 1 else -1
      {
        TermsSign(s, 0, false, u, up);
      }
    }
  }

  // ---------------------------------------------------------------------
  // Region queries

  /** The shape every region query relies on: n coordinates throughout. */
  predicate Shaped(pts: seq<Point>, c: Cell, n: nat) {
    && Uniform(pts) && c.first < c.endPoint <= |pts| && c.depth < 256
    && |pts[c.first].coors| == n && |c.corner.coors| == n
    && (c.isDegenerate ==> |c.degenerateCenter.coors| == n)
  }

  lemma RegionShaped(r: Region)
    requires r.Valid()
    ensures Shaped(r.pts, r.Data(), |r.corner.coors|)
  {
    assert Wf(r.pts[r.first]);
    r.LengthOfFirst(r.pts[r.first]);
  }

  /** `region.containsInDepth(Point(coors), Point(coors).depthAsCenter())`. */
  predicate Queried(pts: seq<Point>, c: Cell, coors: seq<Bits>)
    requires Shaped(pts, c, |coors|)
  {
    var p := FromCoors(coors);
    InDepth(pts, c, p, DepthAsCenter(p))
  }

  /** The region query as a test on coordinate vectors of the region's dimension n. */
  function Inside(pts: seq<Point>, c: Cell, n: nat): seq<Bits> -> bool
    requires Shaped(pts, c, n)
  {
    (coors: seq<Bits>) => |coors| == n && Queried(pts, c, coors)
  }

  /** The test the region object answers, at its current data. */
  function RegionTest(region: Region): seq<Bits> -> bool
    requires region.Valid()
    reads region
  {
    RegionShaped(region);
    Inside(region.pts, region.Data(), |region.corner.coors|)
  }

  /** Coordinate d moved by offset up or down. */
  function Step(coors: seq<Bits>, d: nat, offset: Bits, up: bool): (r: seq<Bits>)
    requires d < |coors|
    ensures |r| == |coors|
  {
    coors[d := if up then WrapAdd(coors[d], offset) else WrapSub(coors[d], offset)]
  }

  /** Every listed index is a coordinate. */
  predicate IndicesBelow(idx: seq<nat>, n: nat) {
    forall u | 0 <= u < |idx| :: idx[u] < n
  }

  lemma SimplexIndices(e: CSimplex)
    ensures IndicesBelow(DirsOf(e), |e.center.coors|)
    ensures IndicesBelow(NonDirsOf(e), |e.center.coors|)
  {
    SplitIsPartition(e);
    forall u | 0 <= u < |DirsOf(e)| ensures DirsOf(e)[u] < |e.center.coors| {
      assert DirsOf(e)[u] in DirsOf(e);
    }
    forall u | 0 <= u < |NonDirsOf(e)| ensures NonDirsOf(e)[u] < |e.center.coors| {
      assert NonDirsOf(e)[u] in NonDirsOf(e);
    }
  }

  /** `checkSimplexRecNonDir` over the nondirections nd: some choice of
      +offset or -offset on nd[it..] gives coordinates the test accepts. */
  predicate RecNonDir(nd: seq<nat>, inside: seq<Bits> -> bool, coors: seq<Bits>, offset: Bits, it: nat)
    requires IndicesBelow(nd, |coors|) && it <= |nd|
    decreases |nd| - it
  {
    if it == |nd| then inside(coors)
    else
      RecNonDir(nd, inside, Step(coors, nd[it], offset, true), offset, it + 1)
      || RecNonDir(nd, inside, Step(coors, nd[it], offset, false), offset, it + 1)
  }

  /** `checkSimplexRecDir` over the directions ds: every choice of +offset or
      -offset on ds[it..] passes the nondirection test. */
  predicate RecDir(ds: seq<nat>, nd: seq<nat>, inside: seq<Bits> -> bool, coors: seq<Bits>, offset: Bits, it: nat)
    requires IndicesBelow(ds, |coors|) && IndicesBelow(nd, |coors|) && it <= |ds|
    decreases |ds| - it
  {
    if it == |ds| then RecNonDir(nd, inside, coors, offset, 0)
    else
      RecDir(ds, nd, inside, Step(coors, ds[it], offset, true), offset, it + 1)
      && RecDir(ds, nd, inside, Step(coors, ds[it], offset, false), offset, it + 1)
  }

  /** `BIGONE >> (depth + 1)`: half the side of the cells one level deeper. */
  function Offset(e: CSimplex): Bits {
    ShiftRight(BIGONE, e.depth + 1)
  }

  /** `checkSimplex(region)`. */
  predicate CheckSimplexF(e: CSimplex, inside: seq<Bits> -> bool) {
    SimplexIndices(e);
    RecDir(DirsOf(e), NonDirsOf(e), inside, e.center.coors, Offset(e), 0)
  }

  /** The coordinates after moving idx[u] by offset, up when signs[u] holds. */
  function Apply(coors: seq<Bits>, idx: seq<nat>, signs: seq<bool>, offset: Bits): (r: seq<Bits>)
    requires |signs| == |idx| && IndicesBelow(idx, |coors|)
    ensures |r| == |coors|
    decreases |idx|
  {
    if idx == [] then coors
    else Apply(Step(coors, idx[0], offset, signs[0]), idx[1..], signs[1..], offset)
  }

  lemma ApplyFrom(coors: seq<Bits>, idx: seq<nat>, it: nat, signs: seq<bool>, offset: Bits)
    requires it < |idx| && |signs| == |idx| - it && IndicesBelow(idx, |coors|)
    ensures IndicesBelow(idx[it..], |coors|) && IndicesBelow(idx[it + 1..], |coors|)
    ensures Apply(coors, idx[it..], signs, offset) == Apply(Step(coors, idx[it], offset, signs[0]), idx[it + 1..], signs[1..], offset)
  {
    assert idx[it..][0] == idx[it] && idx[it..][1..] == idx[it + 1..];
  }

  /** A passing nondirection test has a vertex choice the test accepts. */
  lemma {:induction false} RecNonDirWitness(nd: seq<nat>, inside: seq<Bits> -> bool, coors: seq<Bits>, offset: Bits, it: nat)
    returns (signs: seq<bool>)
    requires IndicesBelow(nd, |coors|) && it <= |nd|
    requires RecNonDir(nd, inside, coors, offset, it)
    ensures IndicesBelow(nd[it..], |coors|) && |signs| == |nd| - it
    ensures inside(Apply(coors, nd[it..], signs, offset))
    decreases |nd| - it
  {
    if it == |nd| {
      signs := [];
      assert Apply(coors, nd[it..], signs, offset) == coors;
    } else {
      var up := RecNonDir(nd, inside, Step(coors, nd[it], offset, true), offset, it + 1);
      var rest := RecNonDirWitness(nd, inside, Step(coors, nd[it], offset, up), offset, it + 1);
      signs := [up] + rest;
      assert signs[0] == up && signs[1..] == rest;
      ApplyFrom(coors, nd, it, signs, offset);
    }
  }

  /** A vertex choice the test accepts makes the nondirection test pass. */
  lemma {:induction false} RecNonDirFrom(nd: seq<nat>, inside: seq<Bits> -> bool, coors: seq<Bits>, offset: Bits, it: nat, signs: seq<bool>)
    requires IndicesBelow(nd, |coors|) && it <= |nd| && |signs| == |nd| - it
    ensures IndicesBelow(nd[it..], |coors|)
    requires IndicesBelow(nd[it..], |coors|) && inside(Apply(coors, nd[it..], signs, offset))
    ensures RecNonDir(nd, inside, coors, offset, it)
    decreases |nd| - it
  {
    if it == |nd| {
      assert Apply(coors, nd[it..], signs, offset) == coors;
    } else {
      ApplyFrom(coors, nd, it, signs, offset);
      RecNonDirFrom(nd, inside, Step(coors, nd[it], offset, signs[0]), offset, it + 1, signs[1..]);
    }
  }

  /** The nondirection test asks whether some vertex choice passes the test. */
  lemma RecNonDirSome(nd: seq<nat>, inside: seq<Bits> -> bool, coors: seq<Bits>, offset: Bits)
    requires IndicesBelow(nd, |coors|)
    ensures RecNonDir(nd, inside, coors, offset, 0) <==>
      exists signs: seq<bool> | |signs| == |nd| :: inside(Apply(coors, nd, signs, offset))
  {
    assert nd[0..] == nd;
    if RecNonDir(nd, inside, coors, offset, 0) {
      var signs := RecNonDirWitness(nd, inside, coors, offset, 0);
    }
    if exists signs: seq<bool> | |signs| == |nd| :: inside(Apply(coors, nd, signs, offset)) {
      var signs: seq<bool> :| |signs| == |nd| && inside(Apply(coors, nd, signs, offset));
      RecNonDirFrom(nd, inside, coors, offset, 0, signs);
    }
  }

  /** A passing direction test passes the nondirection test at every vertex choice. */
  lemma {:induction false} RecDirEvery(ds: seq<nat>, nd: seq<nat>, inside: seq<Bits> -> bool, coors: seq<Bits>, offset: Bits, it: nat, signs: seq<bool>)
    requires IndicesBelow(ds, |coors|) && IndicesBelow(nd, |coors|)
    requires it <= |ds| && |signs| == |ds| - it
    requires RecDir(ds, nd, inside, coors, offset, it)
    ensures IndicesBelow(ds[it..], |coors|)
    ensures RecNonDir(nd, inside, Apply(coors, ds[it..], signs, offset), offset, 0)
    decreases |ds| - it
  {
    if it == |ds| {
      assert Apply(coors, ds[it..], signs, offset) == coors;
    } else {
      ApplyFrom(coors, ds, it, signs, offset);
      RecDirEvery(ds, nd, inside, Step(coors, ds[it], offset, signs[0]), offset, it + 1, signs[1..]);
    }
  }

  /** A failing direction test fails the nondirection test at some vertex choice. */
  lemma {:induction false} RecDirCounter(ds: seq<nat>, nd: seq<nat>, inside: seq<Bits> -> bool, coors: seq<Bits>, offset: Bits, it: nat)
    returns (signs: seq<bool>)
    requires IndicesBelow(ds, |coors|) && IndicesBelow(nd, |coors|) && it <= |ds|
    requires !RecDir(ds, nd, inside, coors, offset, it)
    ensures IndicesBelow(ds[it..], |coors|) && |signs| == |ds| - it
    ensures !RecNonDir(nd, inside, Apply(coors, ds[it..], signs, offset), offset, 0)
    decreases |ds| - it
  {
    if it == |ds| {
      signs := [];
      assert Apply(coors, ds[it..], signs, offset) == coors;
    } else {
      var up := !RecDir(ds, nd, inside, Step(coors, ds[it], offset, true), offset, it + 1);
      var rest := RecDirCounter(ds, nd, inside, Step(coors, ds[it], offset, up), offset, it + 1);
      signs := [up] + rest;
      assert signs[0] == up && signs[1..] == rest;
      ApplyFrom(coors, ds, it, signs, offset);
    }
  }

  /** The direction test asks the nondirection test of every vertex choice. */
  lemma RecDirAll(ds: seq<nat>, nd: seq<nat>, inside: seq<Bits> -> bool, coors: seq<Bits>, offset: Bits)
    requires IndicesBelow(ds, |coors|) && IndicesBelow(nd, |coors|)
    ensures RecDir(ds, nd, inside, coors, offset, 0) <==>
      forall signs: seq<bool> | |signs| == |ds| :: RecNonDir(nd, inside, Apply(coors, ds, signs, offset), offset, 0)
  {
    assert ds[0..] == ds;
    if RecDir(ds, nd, inside, coors, offset, 0) {
      forall signs: seq<bool> | |signs| == |ds|
        ensures RecNonDir(nd, inside, Apply(coors, ds, signs, offset), offset, 0)
      {
        RecDirEvery(ds, nd, inside, coors, offset, 0, signs);
      }
    } else {
      var signs := RecDirCounter(ds, nd, inside, coors, offset, 0);
    }
  }

  /** `checkSimplex` holds exactly when, for every choice of side along each
      direction, some choice along the nondirections passes the test: every
      vertex of the cube, centred at the simplex, one level deeper is near
      the region. */
  lemma CheckSimplexMeaning(e: CSimplex, inside: seq<Bits> -> bool)
    ensures IndicesBelow(DirsOf(e), |e.center.coors|) && IndicesBelow(NonDirsOf(e), |e.center.coors|)
    ensures CheckSimplexF(e, inside) <==>
      forall ds: seq<bool> | |ds| == |DirsOf(e)| ::
        exists ns: seq<bool> | |ns| == |NonDirsOf(e)| ::
          inside(Apply(Apply(e.center.coors, DirsOf(e), ds, Offset(e)), NonDirsOf(e), ns, Offset(e)))
  {
    SimplexIndices(e);
    RecDirAll(DirsOf(e), NonDirsOf(e), inside, e.center.coors, Offset(e));
    forall ds: seq<bool> | |ds| == |DirsOf(e)|
      ensures RecNonDir(NonDirsOf(e), inside, Apply(e.center.coors, DirsOf(e), ds, Offset(e)), Offset(e), 0) <==>
        exists ns: seq<bool> | |ns| == |NonDirsOf(e)| ::
          inside(Apply(Apply(e.center.coors, DirsOf(e), ds, Offset(e)), NonDirsOf(e), ns, Offset(e)))
    {
      RecNonDirSome(NonDirsOf(e), inside, Apply(e.center.coors, DirsOf(e), ds, Offset(e)), Offset(e));
    }
  }

  // ---------------------------------------------------------------------
  // Expansions

  /** The region check of `checkSimplex(region)`, as a test on simplices. */
  function Keep(inside: seq<Bits> -> bool): CSimplex -> bool {
    (e: CSimplex) => CheckSimplexF(e, inside)
  }

  /** The simplex one level deeper centred at coors, if it passes the check `keep`. */
  function Candidate(depth: nat, dim: nat, keep: CSimplex -> bool, coors: seq<Bits>): (r: seq<CSimplex>)
    ensures forall x | x in r :: x.center == FromCoors(coors) && x.depth == depth + 1 && x.dim == dim
    ensures r != [] <==> keep(CSimplex(FromCoors(coors), depth + 1, dim))
  {
    var e := CSimplex(FromCoors(coors), depth + 1, dim);
    if keep(e) then [e] else []
  }

  /** `expansionsRec` for a simplex of depth `depth`, dimension `sdim` and
      nondirections nd: for each nondirection from `it` on, keep it, or move
      it down, or move it up by offset (the last two use up one of the
      dimensions still to fill), until the dimension reaches the simplex's
      own; each resulting candidate is kept when `keep`, the region check, passes. */
  function ExpansionsFrom(nd: seq<nat>, depth: nat, sdim: nat, offset: Bits, keep: CSimplex -> bool,
                          coors: seq<Bits>, it: nat, dim: nat): seq<CSimplex>
    requires IndicesBelow(nd, |coors|) && it <= |nd| && dim >= sdim
    decreases |nd| - it
  {
    if it == |nd| || dim == sdim then Candidate(depth, dim, keep, coors)
    else
      ExpansionsFrom(nd, depth, sdim, offset, keep, coors, it + 1, dim)
      + ExpansionsFrom(nd, depth, sdim, offset, keep, Step(coors, nd[it], offset, false), it + 1, dim - 1)
      + ExpansionsFrom(nd, depth, sdim, offset, keep, Step(coors, nd[it], offset, true), it + 1, dim - 1)
  }

  /** `expansions(region)`: the recursion from the centre, with the full dimension of the space. */
  function ExpansionsOf(s: CSimplex, inside: seq<Bits> -> bool): seq<CSimplex>
    requires s.dim <= |s.center.coors|
  {
    SimplexIndices(s);
    ExpansionsFrom(NonDirsOf(s), s.depth, s.dim, Offset(s), Keep(inside), s.center.coors, 0, |s.center.coors|)
  }

  /** Every expansion is a simplex of a well-formed centre one level deeper,
      of a dimension between the simplex's and `dim`, that passes the check. */
  lemma {:induction false} ExpansionsSound(nd: seq<nat>, depth: nat, sdim: nat, offset: Bits, keep: CSimplex -> bool,
                                           coors: seq<Bits>, it: nat, dim: nat)
    requires IndicesBelow(nd, |coors|) && it <= |nd| && dim >= sdim
    ensures forall x | x in ExpansionsFrom(nd, depth, sdim, offset, keep, coors, it, dim) ::
      && SimplexWf(x) && x.depth == depth + 1 && sdim <= x.dim <= dim
      && |x.center.coors| == |coors| && keep(x)
    decreases |nd| - it
  {
    if !(it == |nd| || dim == sdim) {
      ExpansionsSound(nd, depth, sdim, offset, keep, coors, it + 1, dim);
      ExpansionsSound(nd, depth, sdim, offset, keep, Step(coors, nd[it], offset, false), it + 1, dim - 1);
      ExpansionsSound(nd, depth, sdim, offset, keep, Step(coors, nd[it], offset, true), it + 1, dim - 1);
    }
  }

  /** The expansions of a simplex: each is one level deeper, at least as
      large, passes the region check, and has a centre in the same space. */
  lemma ExpansionsOfSound(s: CSimplex, inside: seq<Bits> -> bool)
    requires s.dim <= |s.center.coors|
    ensures forall x | x in ExpansionsOf(s, inside) ::
      && SimplexWf(x) && x.depth == s.depth + 1 && s.dim <= x.dim <= |s.center.coors|
      && |x.center.coors| == |s.center.coors| && CheckSimplexF(x, inside)
  {
    SimplexIndices(s);
    ExpansionsSound(NonDirsOf(s), s.depth, s.dim, Offset(s), Keep(inside), s.center.coors, 0, |s.center.coors|);
  }

  /** One step of the recursion, with the concatenation regrouped. */
  lemma ExpansionsFromSplit(nd: seq<nat>, depth: nat, sdim: nat, offset: Bits, keep: CSimplex -> bool,
                            coors: seq<Bits>, it: nat, dim: nat)
    requires IndicesBelow(nd, |coors|) && it < |nd| && dim > sdim
    ensures forall xs: seq<CSimplex> ::
      xs + ExpansionsFrom(nd, depth, sdim, offset, keep, coors, it, dim)
      == xs + ExpansionsFrom(nd, depth, sdim, offset, keep, coors, it + 1, dim)
        + ExpansionsFrom(nd, depth, sdim, offset, keep, Step(coors, nd[it], offset, false), it + 1, dim - 1)
        + ExpansionsFrom(nd, depth, sdim, offset, keep, Step(coors, nd[it], offset, true), it + 1, dim - 1)
  {
  }

  // ---------------------------------------------------------------------
  // The recursions on a coordinate buffer
  //
  // The recursive methods below thread the region, whose cache the queries
  // fill, and a ghost copy `cell` of its data, which the queries leave as
  // it is; the test they are specified against is stated on `cell`.

  /** The region holds the data `cell`, of coordinates in n dimensions. */
  ghost predicate Holds(region: Region, cell: Cell, n: nat)
    reads region
  {
    region.Valid() && region.Data() == cell && |cell.corner.coors| == n && Shaped(region.pts, cell, n)
  }

  lemma RegionHolds(region: Region)
    requires region.Valid()
    ensures Holds(region, region.Data(), |region.corner.coors|)
    ensures RegionTest(region) == Inside(region.pts, region.Data(), |region.corner.coors|)
  {
    RegionShaped(region);
  }

  /** `keep` answers the region check `inside` on every simplex. The
      trigger keeps the check folded until a check result is at hand. */
  ghost predicate Decides(keep: CSimplex -> bool, inside: seq<Bits> -> bool) {
    forall e {:trigger CheckSimplexF(e, inside)} :: keep(e) == CheckSimplexF(e, inside)
  }

  /** `checkSimplexRecNonDir`, on a buffer of coordinates it restores. */
  method CheckSimplexRecNonDir(e: CSimplex, region: Region, ghost cell: Cell, it: nat,
                               coors: array<Bits>, offset: Bits) returns (b: bool)
    requires Holds(region, cell, coors.Length)
    requires IndicesBelow(NonDirsOf(e), coors.Length) && it <= |NonDirsOf(e)|
    modifies coors, region
    ensures coors[..] == old(coors[..]) && Holds(region, cell, coors.Length)
    ensures b == RecNonDir(NonDirsOf(e), Inside(region.pts, cell, coors.Length), old(coors[..]), offset, it)
    decreases |NonDirsOf(e)| - it
  {
    if it == |NonDirsOf(e)| {
      var p := FromCoors(coors[..]);
      b := region.ContainsInDepth(p, DepthAsCenter(p));
      return;
    }
    var d := NonDirsOf(e)[it];
    var prev := coors[d];
    var r := PlusAssign(coors, d, offset);
    b := CheckSimplexRecNonDir(e, region, cell, it + 1, coors, offset);
    if b {
      coors[d] := prev;
      assert coors[..] == old(coors[..]);
      return;
    }
    coors[d] := WrapSub(prev, offset);
    assert coors[..] == Step(old(coors[..]), d, offset, false);
    b := CheckSimplexRecNonDir(e, region, cell, it + 1, coors, offset);
    coors[d] := prev;
    assert coors[..] == old(coors[..]);
  }

  /** `checkSimplexRecDir`, on a buffer of coordinates it restores. */
  method CheckSimplexRecDir(e: CSimplex, region: Region, ghost cell: Cell, it: nat,
                            coors: array<Bits>, offset: Bits) returns (b: bool)
    requires Holds(region, cell, coors.Length)
    requires IndicesBelow(DirsOf(e), coors.Length) && IndicesBelow(NonDirsOf(e), coors.Length)
    requires it <= |DirsOf(e)|
    modifies coors, region
    ensures coors[..] == old(coors[..]) && Holds(region, cell, coors.Length)
    ensures b == RecDir(DirsOf(e), NonDirsOf(e), Inside(region.pts, cell, coors.Length), old(coors[..]), offset, it)
    decreases |DirsOf(e)| - it
  {
    if it == |DirsOf(e)| {
      b := CheckSimplexRecNonDir(e, region, cell, 0, coors, offset);
      return;
    }
    var d := DirsOf(e)[it];
    var prev := coors[d];
    var r := PlusAssign(coors, d, offset);
    var isPlus := CheckSimplexRecDir(e, region, cell, it + 1, coors, offset);
    coors[d] := WrapSub(prev, offset);
    assert coors[..] == Step(old(coors[..]), d, offset, false);
    var isMinus := CheckSimplexRecDir(e, region, cell, it + 1, coors, offset);
    coors[d] := prev;
    assert coors[..] == old(coors[..]);
    b := isPlus && isMinus;
  }

  /** `checkSimplex(region)`: the recursion on a copy of the centre's coordinates. */
  method CheckSimplex(e: CSimplex, region: Region) returns (b: bool)
    requires region.Valid() && |e.center.coors| == |region.corner.coors|
    modifies region
    ensures region.Valid() && region.Data() == old(region.Data())
    ensures b == CheckSimplexF(e, RegionTest(region))
  {
    SimplexIndices(e);
    RegionHolds(region);
    var offset := ShiftRight(BIGONE, e.depth + 1);
    var coors := new Bits[|e.center.coors|](i requires 0 <= i < |e.center.coors| => e.center.coors[i]);
    assert coors[..] == e.center.coors;
    b := CheckSimplexRecDir(e, region, region.Data(), 0, coors, offset);
    RegionHolds(region);
  }

  /** `expansionsRec`: appends the expansions from `it` on to `expansions`,
      restoring the buffer. The simplex's depth, dimension, nondirections and
      offset arrive as `depth`, `sdim`, `nd` and `offset`; `keep` is the
      region check on `cell`. */
  method ExpansionsRec(nd: seq<nat>, depth: nat, sdim: nat, offset: Bits, region: Region, ghost cell: Cell,
                       ghost keep: CSimplex -> bool, it: nat, expansions: seq<CSimplex>, coors: array<Bits>, dim: nat)
    returns (exps: seq<CSimplex>)
    requires Holds(region, cell, coors.Length) && Decides(keep, Inside(region.pts, cell, coors.Length))
    requires IndicesBelow(nd, coors.Length) && it <= |nd| && dim >= sdim
    modifies coors, region
    ensures coors[..] == old(coors[..]) && Holds(region, cell, coors.Length)
    ensures exps == expansions + ExpansionsFrom(nd, depth, sdim, offset, keep, old(coors[..]), it, dim)
    decreases |nd| - it, 2
  {
    if it == |nd| || dim == sdim {
      exps := ExpansionLeaf(depth, region, cell, keep, expansions, coors, dim);
      return;
    }
    ExpansionsFromSplit(nd, depth, sdim, offset, keep, coors[..], it, dim);
    exps := ExpansionsRec(nd, depth, sdim, offset, region, cell, keep, it + 1, expansions, coors, dim);
    exps := ExpansionsMoved(nd, depth, sdim, offset, region, cell, keep, it, exps, coors, dim);
  }

  /** The second and third branches of `expansionsRec`: coordinate `nd[it]`
      moved down, then up, then restored. */
  method ExpansionsMoved(nd: seq<nat>, depth: nat, sdim: nat, offset: Bits, region: Region, ghost cell: Cell,
                         ghost keep: CSimplex -> bool, it: nat, expansions: seq<CSimplex>, coors: array<Bits>, dim: nat)
    returns (exps: seq<CSimplex>)
    requires Holds(region, cell, coors.Length) && Decides(keep, Inside(region.pts, cell, coors.Length))
    requires IndicesBelow(nd, coors.Length) && it < |nd| && dim > sdim
    modifies coors, region
    ensures coors[..] == old(coors[..]) && Holds(region, cell, coors.Length)
    ensures exps == expansions
      + ExpansionsFrom(nd, depth, sdim, offset, keep, Step(old(coors[..]), nd[it], offset, false), it + 1, dim - 1)
      + ExpansionsFrom(nd, depth, sdim, offset, keep, Step(old(coors[..]), nd[it], offset, true), it + 1, dim - 1)
    decreases |nd| - it, 1
  {
    exps := ExpansionsShifted(nd, depth, sdim, offset, region, cell, keep, it, expansions, coors, dim, false);
    exps := ExpansionsShifted(nd, depth, sdim, offset, region, cell, keep, it, exps, coors, dim, true);
  }

  /** One of those branches: coordinate `nd[it]` moved up or down by offset,
      the recursion at the next nondirection, and the coordinate restored. */
  method ExpansionsShifted(nd: seq<nat>, depth: nat, sdim: nat, offset: Bits, region: Region, ghost cell: Cell,
                           ghost keep: CSimplex -> bool, it: nat, expansions: seq<CSimplex>, coors: array<Bits>,
                           dim: nat, up: bool)
    returns (exps: seq<CSimplex>)
    requires Holds(region, cell, coors.Length) && Decides(keep, Inside(region.pts, cell, coors.Length))
    requires IndicesBelow(nd, coors.Length) && it < |nd| && dim > sdim
    modifies coors, region
    ensures coors[..] == old(coors[..]) && Holds(region, cell, coors.Length)
    ensures exps == expansions
      + ExpansionsFrom(nd, depth, sdim, offset, keep, Step(old(coors[..]), nd[it], offset, up), it + 1, dim - 1)
    decreases |nd| - it, 0
  {
    ghost var c0 := coors[..];
    var d := nd[it];
    var prev := coors[d];
    coors[d] := if up then WrapAdd(prev, offset) else WrapSub(prev, offset);
    assert coors[..] == Step(c0, d, offset, up);
    exps := ExpansionsRec(nd, depth, sdim, offset, region, cell, keep, it + 1, expansions, coors, dim - 1);
    coors[d] := prev;
    assert coors[..] == c0;
  }

  /** The base case of `expansionsRec`: the candidate at the current coordinates. */
  method ExpansionLeaf(depth: nat, region: Region, ghost cell: Cell, ghost keep: CSimplex -> bool,
                       expansions: seq<CSimplex>, coors: array<Bits>, dim: nat)
    returns (exps: seq<CSimplex>)
    requires Holds(region, cell, coors.Length) && Decides(keep, Inside(region.pts, cell, coors.Length))
    modifies region
    ensures Holds(region, cell, coors.Length)
    ensures exps == expansions + Candidate(depth, dim, keep, coors[..])
  {
    var e := CSimplex(FromCoors(coors[..]), depth + 1, dim);
    RegionHolds(region);
    var ok := CheckSimplex(e, region);
    RegionHolds(region);
    exps := if ok then expansions + [e] else expansions;
  }

  /** `expansions(region)`. */
  method Expansions(s: CSimplex, region: Region) returns (exps: seq<CSimplex>)
    requires region.Valid() && |s.center.coors| == |region.corner.coors| && s.dim <= |s.center.coors|
    modifies region
    ensures region.Valid() && region.Data() == old(region.Data())
    ensures exps == ExpansionsOf(s, RegionTest(region))
  {
    SimplexIndices(s);
    RegionHolds(region);
    ghost var inside := RegionTest(region);
    ghost var cell := region.Data();
    var coors := new Bits[|s.center.coors|](i requires 0 <= i < |s.center.coors| => s.center.coors[i]);
    assert coors[..] == s.center.coors;
    var offset := ShiftRight(BIGONE, s.depth + 1);
    ghost var want := ExpansionsFrom(NonDirsOf(s), s.depth, s.dim, offset, Keep(inside), s.center.coors, 0, |s.center.coors|);
    assert want == ExpansionsOf(s, inside);
    exps := ExpansionsRec(NonDirsOf(s), s.depth, s.dim, offset, region, cell,
                          Keep(inside), 0, [], coors, |s.center.coors|);
    assert exps == [] + want;
    assert [] + want == want;
    RegionHolds(region);
    assert RegionTest(region) == inside;
  }
}
