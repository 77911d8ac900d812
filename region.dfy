/** Regions: a run of consecutive points of a shared point vector whose
    coordinates agree in their top `depth` bits, subdivided lazily into the
    runs one bit deeper. Iterators into the vector are indices into `pts`. */
module Regions {
  import opened Points

  /** All points are well formed and of one dimension. */
  predicate Uniform(pts: seq<Point>) {
    forall a | 0 <= a < |pts| :: Wf(pts[a]) && pts[a].dim == pts[0].dim
  }

  /** `depth_ + 1` stored back into the `uint8_t` field. */
  function Next(depth: nat): nat {
    (depth + 1) % 256
  }

  /** The fields a region's constructor sets, as a value. */
  datatype Cell = Cell(depth: nat, first: nat, endPoint: nat, corner: Point, isDegenerate: bool, degenerateCenter: Point)

  /** `contains(p)`: p's truncation equals the corner. */
  predicate Contains(c: Cell, p: Point)
    requires |p.coors| <= |c.corner.coors| && c.depth < 256
  {
    EqualsTruncated(p, c.corner, c.depth)
  }

  /** The constructor's scan: the first index from k on that is `end` or outside the region. */
  function RunFrom(pts: seq<Point>, corner: Point, depth: nat, k: nat, end: nat): (r: nat)
    requires Uniform(pts) && k <= end <= |pts| && depth < 256
    requires forall a | 0 <= a < |pts| :: |pts[a].coors| == |corner.coors|
    ensures k <= r <= end
    decreases end - k
  {
    if k == end || !EqualsTruncated(pts[k], corner, depth) then k
    else RunFrom(pts, corner, depth, k + 1, end)
  }

  /** The run is maximal: every point in it is inside, and the one that stops it (if any) is not. */
  lemma {:induction false} RunFromSpec(pts: seq<Point>, corner: Point, depth: nat, k: nat, end: nat)
    requires Uniform(pts) && k <= end <= |pts| && depth < 256
    requires forall a | 0 <= a < |pts| :: |pts[a].coors| == |corner.coors|
    ensures var r := RunFrom(pts, corner, depth, k, end);
      && (forall a | k <= a < r :: EqualsTruncated(pts[a], corner, depth))
      && (r < end ==> !EqualsTruncated(pts[r], corner, depth))
    decreases end - k
  {
    if k < end && EqualsTruncated(pts[k], corner, depth) {
      RunFromSpec(pts, corner, depth, k + 1, end);
    }
  }

  /** `Region(depth, first, end)` as a value. */
  function MakeCell(pts: seq<Point>, depth: nat, first: nat, end: nat): (c: Cell)
    requires Uniform(pts) && first < end <= |pts|
    ensures c.depth == depth % 256 && c.first == first
    ensures first < c.endPoint <= end
    ensures c.corner == Truncate(pts[first], depth % 256)
    ensures c.isDegenerate <==> c.endPoint == first + 1
    ensures c.isDegenerate ==> c.degenerateCenter == pts[first]
  {
    var d := depth % 256;
    var corner := Truncate(pts[first], d);
    UniformLengths(pts, first);
    var e := RunFrom(pts, corner, d, first + 1, end);
    Cell(d, first, e, corner, e == first + 1, if e == first + 1 then pts[first] else Point(0, []))
  }

  lemma UniformLengths(pts: seq<Point>, first: nat)
    requires Uniform(pts) && first < |pts|
    ensures forall a | 0 <= a < |pts| :: |pts[a].coors| == |pts[first].coors|
  {
    forall a | 0 <= a < |pts| ensures |pts[a].coors| == |pts[first].coors| {
      assert Wf(pts[a]) && Wf(pts[first]) && pts[a].dim == pts[first].dim;
    }
  }

  /** A region holds the maximal run from `first` of points inside it; `first` itself is inside. */
  lemma MakeCellSpec(pts: seq<Point>, depth: nat, first: nat, end: nat)
    requires Uniform(pts) && first < end <= |pts|
    ensures var c := MakeCell(pts, depth, first, end);
      && (forall a | first <= a < c.endPoint :: Contains(c, pts[a]))
      && (c.endPoint < end ==> !Contains(c, pts[c.endPoint]))
  {
    var d := depth % 256;
    var corner := Truncate(pts[first], d);
    UniformLengths(pts, first);
    EqualsTruncatedIff(pts[first], corner, d);
    RunFromSpec(pts, corner, d, first + 1, end);
  }

  /** A region contains a point of the vector iff truncating the point gives the corner. */
  lemma ContainsIff(pts: seq<Point>, c: Cell, p: Point)
    requires Uniform(pts) && c.first < |pts| && c.depth < 256
    requires c.corner == Truncate(pts[c.first], c.depth)
    requires Wf(p) && p.dim == pts[c.first].dim
    ensures Contains(c, p) <==> Truncate(p, c.depth) == c.corner
  {
    EqualsTruncatedIff(p, c.corner, c.depth);
  }

  /** `subdivide`: the regions one bit deeper that start at `it`, each beginning where the previous one ended. */
  function Subdivision(pts: seq<Point>, depth: nat, it: nat, end: nat): (cs: seq<Cell>)
    requires Uniform(pts) && it <= end <= |pts|
    ensures forall k | 0 <= k < |cs| :: it <= cs[k].first < cs[k].endPoint <= end
    ensures forall k | 0 <= k < |cs| :: cs[k] == MakeCell(pts, depth, cs[k].first, end)
    decreases end - it
  {
    if it == end then []
    else
      var c := MakeCell(pts, depth, it, end);
      [c] + Subdivision(pts, depth, c.endPoint, end)
  }

  /** The subregions are non-empty, consecutive and disjoint, and together cover [it, end) exactly. */
  lemma {:induction false} SubdivisionCovers(pts: seq<Point>, depth: nat, it: nat, end: nat)
    requires Uniform(pts) && it <= end <= |pts|
    ensures var cs := Subdivision(pts, depth, it, end);
      && (it < end <==> |cs| > 0)
      && (|cs| > 0 ==> cs[0].first == it && cs[|cs| - 1].endPoint == end)
      && (forall k | 0 <= k < |cs| :: cs[k].first < cs[k].endPoint && cs[k].depth == depth % 256)
      && (forall k | 0 <= k < |cs| - 1 :: cs[k].endPoint == cs[k + 1].first)
    decreases end - it
  {
    if it < end {
      var c := MakeCell(pts, depth, it, end);
      SubdivisionCovers(pts, depth, c.endPoint, end);
    }
  }

  /** How many more depth steps `containsInDepth` can take before reaching d. */
  function Steps(d: nat, depth: nat): nat {
    (d - depth) % 256
  }

  /** The index of the first cell containing p, or |cs| when there is none. */
  function FirstContaining(cs: seq<Cell>, p: Point, k: nat): (r: nat)
    requires k <= |cs|
    requires forall a | 0 <= a < |cs| :: |p.coors| <= |cs[a].corner.coors| && cs[a].depth < 256
    ensures k <= r <= |cs|
    ensures forall a | k <= a < r :: !Contains(cs[a], p)
    ensures r < |cs| ==> Contains(cs[r], p)
    decreases |cs| - k
  {
    if k == |cs| then k
    else if Contains(cs[k], p) then k
    else FirstContaining(cs, p, k + 1)
  }

  /** `containsInDepth(p, d)` on the region value c. */
  function InDepth(pts: seq<Point>, c: Cell, p: Point, d: nat): bool
    requires Uniform(pts) && c.first < c.endPoint <= |pts| && c.depth < 256 && d < 256
    requires |p.coors| == |pts[c.first].coors| == |c.corner.coors|
    requires c.isDegenerate ==> |c.degenerateCenter.coors| == |p.coors|
    decreases Steps(d, c.depth)
  {
    if d == c.depth then true
    else if c.isDegenerate then EqualsTruncated(p, Truncate(c.degenerateCenter, d), d)
    else
      var cs := Subdivision(pts, Next(c.depth), c.first, c.endPoint);
      SubdivisionCovers(pts, Next(c.depth), c.first, c.endPoint);
      SubdivisionShape(pts, Next(c.depth), c.first, c.endPoint, cs);
      var k := FirstContaining(cs, p, 0);
      if k == |cs| then false
      else
        assert Steps(d, cs[k].depth) < Steps(d, c.depth) by {
          StepsDecrease(d, c.depth);
        }
        InDepth(pts, cs[k], p, d)
  }

  lemma SubdivisionShape(pts: seq<Point>, depth: nat, it: nat, end: nat, cs: seq<Cell>)
    requires Uniform(pts) && it < end <= |pts|
    requires cs == Subdivision(pts, depth, it, end)
    ensures forall k | 0 <= k < |cs| :: cs[k].depth < 256 && |cs[k].corner.coors| == |pts[it].coors|
    ensures forall k | 0 <= k < |cs| :: |pts[cs[k].first].coors| == |pts[it].coors|
    ensures forall k | 0 <= k < |cs| :: cs[k].isDegenerate ==> |cs[k].degenerateCenter.coors| == |pts[it].coors|
  {
    forall k | 0 <= k < |cs| ensures |pts[cs[k].first].coors| == |pts[it].coors| {
      assert Wf(pts[cs[k].first]) && Wf(pts[it]) && pts[cs[k].first].dim == pts[it].dim;
    }
  }

  lemma StepsDecrease(d: nat, depth: nat)
    requires d < 256 && depth < 256 && d != depth
    ensures Steps(d, Next(depth) % 256) < Steps(d, depth)
  {
  }

  /** A region object. `bound` is the `end` its constructor was given, and
      `subregions` the cache `getSubregions` fills. The cache holds regions by
      value; a region in it never fills its own cache (`containsInDepth`
      descends into copies), so each is held as its `Cell`. */
  class Region {
    const pts: seq<Point>
    var depth: nat
    var first: nat
    var endPoint: nat
    var corner: Point
    var isDegenerate: bool
    var degenerateCenter: Point
    ghost var bound: nat
    var subregions: seq<Cell>

    function Data(): Cell
      reads this
    {
      Cell(depth, first, endPoint, corner, isDegenerate, degenerateCenter)
    }

    /** The fields are those the constructor computes, and a filled cache holds exactly the subdivision. */
    ghost predicate Valid()
      reads this
    {
      && Uniform(pts) && first < bound <= |pts| && depth < 256
      && Data() == MakeCell(pts, depth, first, bound)
      && (subregions == [] || subregions == Subdivision(pts, Next(depth), first, endPoint))
    }

    /** `Region(depth, begin, end)`: the corner is the first point truncated to
        depth, and the run extends while points truncate to that corner. */
    constructor (pts: seq<Point>, depth: nat, begin: nat, end: nat)
      requires Uniform(pts) && begin < end <= |pts|
      ensures Valid() && this.pts == pts && subregions == []
      ensures Data() == MakeCell(pts, depth, begin, end) && bound == end
    {
      var d := depth % 256;
      var c := Truncate(pts[begin], d);
      var e := ScanRun(pts, c, d, begin, end);
      this.pts := pts;
      this.depth := d;
      first, endPoint, corner := begin, e, c;
      isDegenerate, degenerateCenter := false, Point(0, []);
      bound := end;
      subregions := [];
      new;
      if first == endPoint - 1 {
        isDegenerate := true;
        degenerateCenter := pts[first];
      }
    }

    /** The constructor's loop: advances from begin + 1 while the points stay inside. */
    static method ScanRun(pts: seq<Point>, corner: Point, d: nat, begin: nat, end: nat) returns (e: nat)
      requires Uniform(pts) && begin < end <= |pts| && d < 256 && corner == Truncate(pts[begin], d)
      ensures forall a | 0 <= a < |pts| :: |pts[a].coors| == |corner.coors|
      ensures e == RunFrom(pts, corner, d, begin + 1, end)
    {
      UniformLengths(pts, begin);
      e := begin + 1;
      while e != end && EqualsTruncated(pts[e], corner, d)
        invariant begin < e <= end
        invariant RunFrom(pts, corner, d, e, end) == RunFrom(pts, corner, d, begin + 1, end)
        decreases end - e
      {
        e := e + 1;
      }
    }

    /** The by-value copy of a cached subregion that `for (auto x : getSubregions())` iterates with. */
    constructor Copy(pts: seq<Point>, c: Cell, ghost end: nat)
      requires Uniform(pts) && c.first < end <= |pts| && c.depth < 256
      requires c == MakeCell(pts, c.depth, c.first, end)
      ensures Valid() && this.pts == pts && Data() == c && bound == end && subregions == []
    {
      this.pts := pts;
      depth, first, endPoint, corner := c.depth, c.first, c.endPoint, c.corner;
      isDegenerate, degenerateCenter := c.isDegenerate, c.degenerateCenter;
      bound := end;
      subregions := [];
    }

    /** `contains(p)`. */
    predicate ContainsPoint(p: Point)
      reads this
      requires |p.coors| <= |corner.coors| && depth < 256
    {
      Contains(Data(), p)
    }

    /** `subdivide`: appends the regions one bit deeper that cover this one's run. */
    method Subdivide()
      requires Valid()
      modifies this
      ensures Data() == old(Data()) && bound == old(bound)
      ensures subregions == old(subregions) + Subdivision(pts, Next(depth), first, endPoint)
    {
      var it := first;
      while it != endPoint
        invariant first <= it <= endPoint <= |pts| && Uniform(pts)
        invariant Data() == old(Data()) && bound == old(bound)
        invariant subregions + Subdivision(pts, Next(depth), it, endPoint)
          == old(subregions) + Subdivision(pts, Next(depth), first, endPoint)
        decreases endPoint - it
      {
        var c := AddSubregion(it);
        it := c.endPoint;
      }
      assert subregions + [] == subregions;
    }

    /** One pass of that loop: the region one bit deeper starting at `it` is appended. */
    method AddSubregion(it: nat) returns (c: Cell)
      requires Uniform(pts) && first <= it < endPoint <= |pts|
      modifies this
      ensures Data() == old(Data()) && bound == old(bound) && subregions == old(subregions) + [c]
      ensures it < c.endPoint <= endPoint
      ensures subregions + Subdivision(pts, Next(depth), c.endPoint, endPoint)
        == old(subregions) + Subdivision(pts, Next(depth), it, endPoint)
    {
      var r := new Region(pts, Next(depth), it, endPoint);
      c := r.Data();
      SubdivisionFirst(pts, Next(depth), it, endPoint, c, subregions);
      subregions := subregions + [c];
    }

    /** `getSubregions`: subdivides only while the cache is empty, so a later call returns the same list. */
    method GetSubregions() returns (rs: seq<Cell>)
      requires Valid()
      modifies this
      ensures Valid() && Data() == old(Data()) && bound == old(bound) && rs == subregions
      ensures old(subregions) != [] ==> subregions == old(subregions)
      ensures |subregions| > 0 && subregions == Subdivision(pts, Next(depth), first, endPoint)
    {
      if |subregions| == 0 {
        Subdivide();
      }
      SubdivisionCovers(pts, Next(depth), first, endPoint);
      rs := subregions;
    }

    /** The loop over the subregions in `containsInDepth`: the first one containing p, or |subregions|. */
    method FindChild(p: Point) returns (k: nat)
      requires Valid() && subregions != [] && Wf(p) && p.dim == pts[first].dim
      ensures ChildShapes(p) && k == FirstContaining(subregions, p, 0)
    {
      ChildLengths(p);
      k := 0;
      while k < |subregions| && !Contains(subregions[k], p)
        invariant 0 <= k <= |subregions|
        invariant FirstContaining(subregions, p, 0) == FirstContaining(subregions, p, k)
      {
        k := k + 1;
      }
    }

    ghost predicate ChildShapes(p: Point)
      reads this
    {
      forall k | 0 <= k < |subregions| :: |p.coors| <= |subregions[k].corner.coors| && subregions[k].depth < 256
    }

    lemma ChildLengths(p: Point)
      requires Valid() && subregions != [] && Wf(p) && p.dim == pts[first].dim
      ensures ChildShapes(p)
    {
      LengthOfFirst(p);
      SubdivisionShape(pts, Next(depth), first, endPoint, subregions);
    }

    /** What a subregion is: the k-th region of the subdivision, one bit deeper. */
    lemma ChildFacts(p: Point, k: nat)
      requires Valid() && subregions != [] && k < |subregions| && Wf(p) && p.dim == pts[first].dim
      ensures var c := subregions[k];
        && c.first < endPoint <= |pts| && c.depth == Next(depth)
        && c == MakeCell(pts, c.depth, c.first, endPoint)
        && p.dim == pts[c.first].dim
    {
      var c := subregions[k];
      SubdivisionShape(pts, Next(depth), first, endPoint, subregions);
      assert Wf(pts[c.first]) && Wf(pts[first]) && pts[c.first].dim == pts[0].dim == pts[first].dim;
    }

    /** `containsInDepth(p, d)`. */
    method ContainsInDepth(p: Point, d: nat) returns (b: bool)
      requires Valid() && Wf(p) && p.dim == pts[first].dim && d < 256
      modifies this
      ensures Valid() && Data() == old(Data())
      ensures b == InDepth(pts, Data(), p, d)
      decreases Steps(d, depth)
    {
      LengthOfFirst(p);
      if d == depth {
        return true;
      }
      if isDegenerate {
        return EqualsTruncated(p, Truncate(degenerateCenter, d), d);
      }
      var subs := GetSubregions();
      var k := FindChild(p);
      if k == |subs| {
        return false;
      }
      ChildFacts(p, k);
      var x := new Region.Copy(pts, subs[k], endPoint);
      StepsDecrease(d, depth);
      b := x.ContainsInDepth(p, d);
    }

    lemma LengthOfFirst(p: Point)
      requires Valid() && Wf(p) && p.dim == pts[first].dim
      ensures |corner.coors| == |p.coors| == |pts[first].coors|
      ensures isDegenerate ==> |degenerateCenter.coors| == |p.coors|
    {
      assert Wf(pts[first]);
    }
  }

  /** The subdivision from `it` is the region at `it` and then the subdivision after it. */
  lemma SubdivisionFirst(pts: seq<Point>, depth: nat, it: nat, end: nat, c: Cell, prefix: seq<Cell>)
    requires Uniform(pts) && it < end <= |pts| && c == MakeCell(pts, depth, it, end)
    ensures (prefix + [c]) + Subdivision(pts, depth, c.endPoint, end) == prefix + Subdivision(pts, depth, it, end)
  {
    assert Subdivision(pts, depth, it, end) == [c] + Subdivision(pts, depth, c.endPoint, end);
    assert prefix + ([c] + Subdivision(pts, depth, c.endPoint, end)) == (prefix + [c]) + Subdivision(pts, depth, c.endPoint, end);
  }
}
