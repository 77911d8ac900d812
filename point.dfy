/** Points of the discrete cube [0, 2^64)^dim: one 64-bit word per coordinate.
    A cell of depth d is named by the top d bits of every coordinate; its centre
    sets, in addition, the bit just below them. */
module Points {
  import opened Words
  import opened Bitsets

  datatype Point = Point(dim: nat, coors: seq<Bits>)

  /** A point built by `Point(coors)` records its coordinate count. */
  predicate Wf(p: Point) {
    p.dim == |p.coors|
  }

  /** `Point(coors)`. */
  function FromCoors(coors: seq<Bits>): (p: Point)
    ensures Wf(p) && p.coors == coors
  {
    Point(|coors|, coors)
  }

  // ---------------------------------------------------------------------
  // Order and equality

  /** `p < q`: bit planes from the most significant down, and within a plane
      the coordinates in index order; the first differing bit decides. */
  predicate Less(p: Point, q: Point)
    requires |p.coors| <= |q.coors|
  {
    LessFrom(p.coors, q.coors, NUMBITS, 0)
  }

  /** The comparison loops: `planes - 1` is the current plane, i the coordinate. */
  predicate LessFrom(a: seq<Bits>, b: seq<Bits>, planes: nat, i: nat)
    requires |a| <= |b| && i <= |a|
    decreases planes, |a| - i
  {
    if planes == 0 then false
    else if i == |a| then LessFrom(a, b, planes - 1, 0)
    else if !Bit(a[i] as nat, planes - 1) && Bit(b[i] as nat, planes - 1) then true
    else if Bit(a[i] as nat, planes - 1) && !Bit(b[i] as nat, planes - 1) then false
    else LessFrom(a, b, planes, i + 1)
  }

  /** `p == q`: equal dimension and equal coordinates. */
  predicate Eq(p: Point, q: Point)
    requires p.dim <= |p.coors| && q.dim <= |q.coors|
  {
    p.dim == q.dim && forall i | 0 <= i < p.dim :: p.coors[i] == q.coors[i]
  }

  /** `p != q`. */
  predicate Neq(p: Point, q: Point)
    requires p.dim <= |p.coors| && q.dim <= |q.coors|
  {
    !Eq(p, q)
  }

  lemma EqIsEquality(p: Point, q: Point)
    requires Wf(p) && Wf(q)
    ensures Eq(p, q) <==> p == q
    ensures Neq(p, q) <==> p != q
  {
    if Eq(p, q) {
      assert p.coors == q.coors;
    }
  }

  /** The interleaved (Z-order) bit string: plane 63 of every coordinate, then plane 62, and so on. */
  function KeyFrom(a: seq<Bits>, planes: nat, i: nat): seq<bool>
    requires i <= |a|
    decreases planes, |a| - i
  {
    if planes == 0 then []
    else if i == |a| then KeyFrom(a, planes - 1, 0)
    else [Bit(a[i] as nat, planes - 1)] + KeyFrom(a, planes, i + 1)
  }

  function ZKey(p: Point): seq<bool> {
    KeyFrom(p.coors, NUMBITS, 0)
  }

  /** Lexicographic order on bit strings of one length, 0 before 1. */
  predicate LexLess(x: seq<bool>, y: seq<bool>)
    requires |x| == |y|
  {
    if |x| == 0 then false
    else if x[0] != y[0] then !x[0]
    else LexLess(x[1..], y[1..])
  }

  lemma LexCons(h1: bool, t1: seq<bool>, h2: bool, t2: seq<bool>)
    requires |t1| == |t2|
    ensures LexLess([h1] + t1, [h2] + t2) == if h1 != h2 then !h1 else LexLess(t1, t2)
  {
    assert ([h1] + t1)[1..] == t1;
    assert ([h2] + t2)[1..] == t2;
  }

  lemma {:induction false} KeyLength(a: seq<Bits>, b: seq<Bits>, planes: nat, i: nat)
    requires |a| == |b| && i <= |a|
    ensures |KeyFrom(a, planes, i)| == |KeyFrom(b, planes, i)|
    decreases planes, |a| - i
  {
    if planes == 0 {
    } else if i == |a| {
      KeyLength(a, b, planes - 1, 0);
    } else {
      KeyLength(a, b, planes, i + 1);
    }
  }

  lemma {:induction false} LessFromIsLex(a: seq<Bits>, b: seq<Bits>, planes: nat, i: nat)
    requires |a| == |b| && i <= |a|
    ensures |KeyFrom(a, planes, i)| == |KeyFrom(b, planes, i)|
    ensures LessFrom(a, b, planes, i) == LexLess(KeyFrom(a, planes, i), KeyFrom(b, planes, i))
    decreases planes, |a| - i
  {
    KeyLength(a, b, planes, i);
    if planes == 0 {
    } else if i == |a| {
      LessFromIsLex(a, b, planes - 1, 0);
    } else {
      LessFromIsLex(a, b, planes, i + 1);
      LexCons(Bit(a[i] as nat, planes - 1), KeyFrom(a, planes, i + 1), Bit(b[i] as nat, planes - 1), KeyFrom(b, planes, i + 1));
    }
  }

  /** `<` is the lexicographic order of the Z-order bit strings. */
  lemma LessIsZOrder(p: Point, q: Point)
    requires |p.coors| == |q.coors|
    ensures |ZKey(p)| == |ZKey(q)|
    ensures Less(p, q) == LexLess(ZKey(p), ZKey(q))
  {
    LessFromIsLex(p.coors, q.coors, NUMBITS, 0);
  }

  lemma ConsInjective(h1: bool, t1: seq<bool>, h2: bool, t2: seq<bool>)
    requires [h1] + t1 == [h2] + t2
    ensures h1 == h2 && t1 == t2
  {
    assert ([h1] + t1)[0] == h1;
    assert ([h1] + t1)[1..] == t1;
    assert ([h2] + t2)[1..] == t2;
  }

  lemma {:induction false} KeyDeterminesBit(a: seq<Bits>, b: seq<Bits>, planes: nat, i: nat, c: nat, j: nat)
    requires |a| == |b| && i <= |a|
    requires KeyFrom(a, planes, i) == KeyFrom(b, planes, i)
    requires c < |a| && j < planes && (j + 1 < planes || i <= c)
    ensures Bit(a[c] as nat, j) == Bit(b[c] as nat, j)
    decreases planes, |a| - i
  {
    if i == |a| {
      KeyDeterminesBit(a, b, planes - 1, 0, c, j);
    } else {
      ConsInjective(Bit(a[i] as nat, planes - 1), KeyFrom(a, planes, i + 1), Bit(b[i] as nat, planes - 1), KeyFrom(b, planes, i + 1));
      if !(c == i && j + 1 == planes) {
        KeyDeterminesBit(a, b, planes, i + 1, c, j);
      }
    }
  }

  /** Points of one dimension with the same Z-order bit string are equal. */
  lemma ZKeyInjective(p: Point, q: Point)
    requires Wf(p) && Wf(q) && p.dim == q.dim
    requires ZKey(p) == ZKey(q)
    ensures p == q
  {
    forall c | 0 <= c < |p.coors| ensures p.coors[c] == q.coors[c] {
      var x, y := p.coors[c], q.coors[c];
      forall j: nat {:trigger Bit(x as nat, j)} | j < NUMBITS ensures Bit(x as nat, j) == Bit(y as nat, j) {
        KeyDeterminesBit(p.coors, q.coors, NUMBITS, 0, c, j);
      }
      BitsDetermine(p.coors[c], q.coors[c]);
    }
    assert p.coors == q.coors;
  }

  lemma {:induction false} LexIrreflexive(x: seq<bool>)
    ensures !LexLess(x, x)
  {
    if |x| > 0 {
      LexIrreflexive(x[1..]);
    }
  }

  lemma {:induction false} LexTrichotomy(x: seq<bool>, y: seq<bool>)
    requires |x| == |y|
    ensures x == y || LexLess(x, y) || LexLess(y, x)
    ensures !(LexLess(x, y) && LexLess(y, x))
  {
    if |x| > 0 && x[0] == y[0] {
      LexTrichotomy(x[1..], y[1..]);
      if x[1..] == y[1..] {
        assert x == [x[0]] + x[1..] && y == [y[0]] + y[1..];
      }
    }
  }

  lemma {:induction false} LexTransitive(x: seq<bool>, y: seq<bool>, z: seq<bool>)
    requires |x| == |y| == |z|
    requires LexLess(x, y) && LexLess(y, z)
    ensures LexLess(x, z)
  {
    if x[0] == y[0] && y[0] == z[0] {
      LexTransitive(x[1..], y[1..], z[1..]);
    }
  }

  /** `<` is irreflexive. */
  lemma LessIrreflexive(p: Point)
    ensures !Less(p, p)
  {
    LessIsZOrder(p, p);
    LexIrreflexive(ZKey(p));
  }

  /** For points of equal dimension exactly one of p < q, q < p, p == q holds. */
  lemma LessTrichotomy(p: Point, q: Point)
    requires Wf(p) && Wf(q) && p.dim == q.dim
    ensures (Less(p, q) || Less(q, p) || Eq(p, q))
    ensures !(Less(p, q) && Less(q, p))
    ensures Eq(p, q) ==> !Less(p, q) && !Less(q, p)
  {
    LessIsZOrder(p, q);
    LessIsZOrder(q, p);
    EqIsEquality(p, q);
    LexTrichotomy(ZKey(p), ZKey(q));
    if ZKey(p) == ZKey(q) {
      ZKeyInjective(p, q);
    }
    if p == q {
      LessIrreflexive(p);
    }
  }

  lemma LessTransitive(p: Point, q: Point, r: Point)
    requires |p.coors| == |q.coors| == |r.coors|
    requires Less(p, q) && Less(q, r)
    ensures Less(p, r)
  {
    LessIsZOrder(p, q);
    LessIsZOrder(q, r);
    LessIsZOrder(p, r);
    LexTransitive(ZKey(p), ZKey(q), ZKey(r));
  }

  // ---------------------------------------------------------------------
  // Truncation and centres

  /** The shift count `NUMBITS - n` handed to the bitset shifts; for n > NUMBITS
      the negative int converts to a huge size_t. */
  function TruncShift(n: nat): nat
    requires n < 256
  {
    if n <= NUMBITS then NUMBITS - n else TWO64 - (n - NUMBITS)
  }

  /** `uint8_t shift = NUMBITS - depth` in `makeCenter`, `hasCenter` and `equalsTruncated`. */
  function CenterShift(depth: nat): nat
    requires depth < 256
  {
    (NUMBITS - depth) % 256
  }

  /** `x >> s << s`: clears the low s bits. */
  function ClearLow(x: Bits, s: nat): (r: Bits)
    ensures forall j: nat {:trigger Bit(r as nat, j)} :: Bit(r as nat, j) == (s <= j < NUMBITS && Bit(x as nat, j))
  {
    ShiftLeft(ShiftRight(x, s), s)
  }

  /** Both shift counts clear the same bits, so clearing with either gives one word. */
  lemma ShiftsAgree(x: Bits, depth: nat)
    requires depth < 256
    ensures ClearLow(x, CenterShift(depth)) == ClearLow(x, TruncShift(depth))
  {
    if depth <= NUMBITS {
      assert CenterShift(depth) == TruncShift(depth);
    } else {
      assert CenterShift(depth) >= NUMBITS && TruncShift(depth) >= NUMBITS;
      BitsDetermine(ClearLow(x, CenterShift(depth)), ClearLow(x, TruncShift(depth)));
    }
  }

  /** `truncate(n)`: the top n bits of every coordinate, the rest zero
      (every bit is cleared when n exceeds NUMBITS). */
  function Truncate(p: Point, n: nat): (r: Point)
    requires n < 256
    ensures Wf(r) && |r.coors| == |p.coors|
  {
    FromCoors(seq(|p.coors|, i requires 0 <= i < |p.coors| => ClearLow(p.coors[i], TruncShift(n))))
  }

  /** Truncation keeps exactly the top n bits of each coordinate. */
  lemma TruncateBits(p: Point, n: nat)
    requires n < 256
    ensures var r := Truncate(p, n);
      forall i: nat, j: nat {:trigger Bit(r.coors[i] as nat, j)} | i < |r.coors| ::
        Bit(r.coors[i] as nat, j) == (n <= NUMBITS && NUMBITS - n <= j < NUMBITS && Bit(p.coors[i] as nat, j))
  {
  }

  /** Truncation keeps the dimension and is idempotent. */
  lemma TruncateTwice(p: Point, n: nat)
    requires Wf(p) && n < 256
    ensures Truncate(p, n).dim == p.dim
    ensures Truncate(Truncate(p, n), n) == Truncate(p, n)
  {
    var t := Truncate(p, n);
    var tt := Truncate(t, n);
    TruncateBits(p, n);
    TruncateBits(t, n);
    forall i | 0 <= i < |p.coors| ensures tt.coors[i] == t.coors[i] {
      BitsDetermine(tt.coors[i], t.coors[i]);
    }
    assert tt.coors == t.coors;
  }

  /** `half = SMALLONE << (shift - 1)`; with shift = 0 the count is -1, a huge size_t. */
  function Half(shift: nat): Bits {
    if shift == 0 then 0 else ShiftLeft(SMALLONE, shift - 1)
  }

  /** `makeCenter(depth)`: the truncation to `depth` bits with bit NUMBITS - 1 - depth also set. */
  function MakeCenter(p: Point, depth: nat): (r: Point)
    requires depth < 256
    ensures Wf(r) && |r.coors| == |p.coors|
    ensures depth < NUMBITS ==> forall i: nat, j: nat {:trigger Bit(r.coors[i] as nat, j)} | i < |r.coors| ::
      Bit(r.coors[i] as nat, j) == (Bit(Truncate(p, depth).coors[i] as nat, j) || j == NUMBITS - 1 - depth)
    ensures depth == NUMBITS ==> r.coors == p.coors
    ensures depth > NUMBITS ==> forall i | 0 <= i < |p.coors| :: r.coors[i] == 0
  {
    var shift := CenterShift(depth);
    var half := Half(shift);
    var r := FromCoors(seq(|p.coors|, i requires 0 <= i < |p.coors| => Or(ClearLow(p.coors[i], shift), half)));
    CenterBits(p, depth, r);
    r
  }

  lemma CenterBits(p: Point, depth: nat, r: Point)
    requires depth < 256
    requires |r.coors| == |p.coors|
    requires forall i | 0 <= i < |p.coors| :: r.coors[i] == Or(ClearLow(p.coors[i], CenterShift(depth)), Half(CenterShift(depth)))
    ensures depth < NUMBITS ==> forall i: nat, j: nat {:trigger Bit(r.coors[i] as nat, j)} | i < |r.coors| ::
      Bit(r.coors[i] as nat, j) == (Bit(Truncate(p, depth).coors[i] as nat, j) || j == NUMBITS - 1 - depth)
    ensures depth == NUMBITS ==> r.coors == p.coors
    ensures depth > NUMBITS ==> forall i | 0 <= i < |p.coors| :: r.coors[i] == 0
  {
    if depth < NUMBITS {
      CenterBitsBelow(p, depth, r);
    } else if depth == NUMBITS {
      CenterBitsAt(p, r);
    } else {
      CenterBitsBeyond(p, depth, r);
    }
  }

  lemma CenterBitsBelow(p: Point, depth: nat, r: Point)
    requires depth < NUMBITS
    requires |r.coors| == |p.coors|
    requires forall i | 0 <= i < |p.coors| :: r.coors[i] == Or(ClearLow(p.coors[i], CenterShift(depth)), Half(CenterShift(depth)))
    ensures forall i: nat, j: nat {:trigger Bit(r.coors[i] as nat, j)} | i < |r.coors| ::
      Bit(r.coors[i] as nat, j) == (Bit(Truncate(p, depth).coors[i] as nat, j) || j == NUMBITS - 1 - depth)
  {
    var shift := CenterShift(depth);
    assert shift == NUMBITS - depth;
    HalfBits(shift);
    TruncateBits(p, depth);
    forall i: nat, j: nat {:trigger Bit(r.coors[i] as nat, j)} | i < |r.coors|
      ensures Bit(r.coors[i] as nat, j) == (Bit(Truncate(p, depth).coors[i] as nat, j) || j == NUMBITS - 1 - depth)
    {
      assert Bit(r.coors[i] as nat, j) == (Bit(ClearLow(p.coors[i], shift) as nat, j) || Bit(Half(shift) as nat, j));
    }
  }

  /** The half word of a shift s > 0 is bit s - 1 alone. */
  lemma HalfBits(s: nat)
    requires 0 < s <= NUMBITS
    ensures forall j: nat {:trigger Bit(Half(s) as nat, j)} :: Bit(Half(s) as nat, j) == (j == s - 1)
  {
    SingleBits();
  }

  lemma CenterBitsAt(p: Point, r: Point)
    requires |r.coors| == |p.coors|
    requires forall i | 0 <= i < |p.coors| :: r.coors[i] == Or(ClearLow(p.coors[i], CenterShift(NUMBITS)), Half(CenterShift(NUMBITS)))
    ensures r.coors == p.coors
  {
    ZeroHasNoBits();
    forall i | 0 <= i < |p.coors| ensures r.coors[i] == p.coors[i] {
      BitsDetermine(r.coors[i], p.coors[i]);
    }
  }

  lemma CenterBitsBeyond(p: Point, depth: nat, r: Point)
    requires NUMBITS < depth < 256
    requires |r.coors| == |p.coors|
    requires forall i | 0 <= i < |p.coors| :: r.coors[i] == Or(ClearLow(p.coors[i], CenterShift(depth)), Half(CenterShift(depth)))
    ensures forall i | 0 <= i < |p.coors| :: r.coors[i] == 0
  {
    var shift := CenterShift(depth);
    assert shift > NUMBITS;
    assert Half(shift) == 0;
    ZeroHasNoBits();
    forall i | 0 <= i < |p.coors| ensures r.coors[i] == 0 {
      assert forall j: nat {:trigger Bit(r.coors[i] as nat, j)} :: !Bit(r.coors[i] as nat, j);
      BitsDetermine(r.coors[i], 0);
    }
  }

  /** `hasCenter(center, depth)`: every coordinate agrees with the centre's in the top `depth` bits. */
  predicate HasCenter(p: Point, center: Point, depth: nat)
    requires |p.coors| <= |center.coors| && depth < 256
  {
    forall i | 0 <= i < |p.coors| :: ClearLow(p.coors[i], CenterShift(depth)) == ClearLow(center.coors[i], CenterShift(depth))
  }

  /** `hasCenter(c, d)` holds iff the two points truncate to the same point. */
  lemma HasCenterIff(p: Point, center: Point, depth: nat)
    requires |p.coors| == |center.coors| && depth < 256
    ensures HasCenter(p, center, depth) <==> Truncate(p, depth) == Truncate(center, depth)
  {
    forall i | 0 <= i < |p.coors| ensures
      && ClearLow(p.coors[i], CenterShift(depth)) == Truncate(p, depth).coors[i]
      && ClearLow(center.coors[i], CenterShift(depth)) == Truncate(center, depth).coors[i]
    {
      ShiftsAgree(p.coors[i], depth);
      ShiftsAgree(center.coors[i], depth);
    }
    if Truncate(p, depth).coors == Truncate(center, depth).coors {
      assert Truncate(p, depth) == Truncate(center, depth);
    }
  }

  /** `equalsTruncated(rhs, depth)`: truncating this point's coordinates gives rhs's. */
  predicate EqualsTruncated(p: Point, rhs: Point, depth: nat)
    requires |p.coors| <= |rhs.coors| && depth < 256
  {
    forall i | 0 <= i < |p.coors| :: ClearLow(p.coors[i], CenterShift(depth)) == rhs.coors[i]
  }

  /** For rhs of the same dimension, `equalsTruncated` holds exactly for the truncation of p. */
  lemma EqualsTruncatedIff(p: Point, rhs: Point, depth: nat)
    requires Wf(p) && Wf(rhs) && p.dim == rhs.dim && depth < 256
    ensures EqualsTruncated(p, rhs, depth) <==> rhs == Truncate(p, depth)
    ensures EqualsTruncated(p, Truncate(p, depth), depth)
  {
    forall i | 0 <= i < |p.coors| ensures ClearLow(p.coors[i], CenterShift(depth)) == Truncate(p, depth).coors[i] {
      ShiftsAgree(p.coors[i], depth);
    }
    if EqualsTruncated(p, rhs, depth) {
      assert rhs.coors == Truncate(p, depth).coors;
    }
  }

  // ---------------------------------------------------------------------
  // Directions

  /** Coordinate k is a direction at `depth` when `coors[k] & (BIGONE >> depth)` is zero. */
  predicate IsDirection(p: Point, depth: nat, k: nat)
    requires k < |p.coors|
  {
    And(p.coors[k], ShiftRight(BIGONE, depth)) == 0
  }

  /** A direction is a coordinate whose bit NUMBITS - 1 - depth is clear; beyond depth 63 every coordinate is one. */
  lemma DirectionBit(p: Point, depth: nat, k: nat)
    requires k < |p.coors|
    ensures IsDirection(p, depth, k) <==> (depth < NUMBITS ==> !Bit(p.coors[k] as nat, NUMBITS - 1 - depth))
  {
    SingleBits();
    ZeroHasNoBits();
    var w := And(p.coors[k], ShiftRight(BIGONE, depth));
    if depth < NUMBITS && Bit(p.coors[k] as nat, NUMBITS - 1 - depth) {
      assert Bit(w as nat, NUMBITS - 1 - depth);
    } else {
      BitsDetermine(w, 0);
    }
  }

  predicate Increasing(s: seq<nat>) {
    forall a, b | 0 <= a < b < |s| :: s[a] < s[b]
  }

  /** The indices below i whose direction test gives `want`, in increasing order. */
  function SplitBelow(p: Point, depth: nat, i: nat, want: bool): (r: seq<nat>)
    requires i <= |p.coors|
    ensures Increasing(r)
    ensures forall k: nat :: k in r <==> k < i && IsDirection(p, depth, k) == want
  {
    if i == 0 then []
    else
      var r := SplitBelow(p, depth, i - 1, want);
      if IsDirection(p, depth, i - 1) == want then
        IncreasingAppend(r, i - 1);
        r + [i - 1]
      else r
  }

  /** The directions of p at `depth`: the coordinates whose bit NUMBITS - 1 - depth is clear. */
  function Dirs(p: Point, depth: nat): (r: seq<nat>)
    ensures Increasing(r)
    ensures forall k: nat :: k in r <==> k < |p.coors| && IsDirection(p, depth, k)
  {
    SplitBelow(p, depth, |p.coors|, true)
  }

  /** The other coordinates. */
  function NonDirs(p: Point, depth: nat): (r: seq<nat>)
    ensures Increasing(r)
    ensures forall k: nat :: k in r <==> k < |p.coors| && !IsDirection(p, depth, k)
  {
    SplitBelow(p, depth, |p.coors|, false)
  }

  /** Every coordinate is in exactly one of the two lists, and together they have dim entries. */
  lemma {:induction false} SplitPartitions(p: Point, depth: nat, i: nat)
    requires i <= |p.coors|
    ensures |SplitBelow(p, depth, i, true)| + |SplitBelow(p, depth, i, false)| == i
  {
    if i > 0 {
      SplitPartitions(p, depth, i - 1);
    }
  }

  lemma IncreasingAppend(s: seq<nat>, x: nat)
    requires Increasing(s) && forall k: nat :: k in s ==> k < x
    ensures Increasing(s + [x])
  {
    forall a | 0 <= a < |s| ensures s[a] < x {
      assert s[a] in s;
    }
  }

  /** `directions(depth, dirs, nondirs)`: appends the directions to dirs and the other indices to nondirs. */
  method Directions(p: Point, depth: nat, dirs: seq<nat>, nondirs: seq<nat>) returns (dirs': seq<nat>, nondirs': seq<nat>)
    ensures dirs' == dirs + Dirs(p, depth)
    ensures nondirs' == nondirs + NonDirs(p, depth)
  {
    var oneOne := ShiftRight(BIGONE, depth);
    dirs', nondirs' := dirs, nondirs;
    var i := 0;
    while i < |p.coors|
      invariant 0 <= i <= |p.coors|
      invariant dirs' == dirs + SplitBelow(p, depth, i, true)
      invariant nondirs' == nondirs + SplitBelow(p, depth, i, false)
    {
      if And(p.coors[i], oneOne) == 0 {
        dirs' := dirs' + [i];
      } else {
        nondirs' := nondirs' + [i];
      }
      i := i + 1;
    }
  }

  // ---------------------------------------------------------------------
  // Depth of a centre

  /** `centerFound` for bit i: every coordinate has `coor & (SMALLONE << i)` nonzero. */
  predicate AllHave(a: seq<Bits>, i: nat) {
    forall c | 0 <= c < |a| :: And(a[c], ShiftLeft(SMALLONE, i)) != 0
  }

  lemma AllHaveBit(a: seq<Bits>, i: nat)
    requires i < NUMBITS
    ensures AllHave(a, i) <==> forall c | 0 <= c < |a| :: Bit(a[c] as nat, i)
  {
    SingleBits();
    ZeroHasNoBits();
    forall c | 0 <= c < |a| ensures And(a[c], ShiftLeft(SMALLONE, i)) != 0 <==> Bit(a[c] as nat, i) {
      var w := And(a[c], ShiftLeft(SMALLONE, i));
      if Bit(a[c] as nat, i) {
        assert Bit(w as nat, i);
      } else {
        BitsDetermine(w, 0);
      }
    }
  }

  /** The scan of `depthAsCenter` from bit position i upward. */
  function DepthFrom(a: seq<Bits>, i: nat): (r: nat)
    requires i <= NUMBITS
    ensures r < NUMBITS
    ensures (exists k :: i <= k < NUMBITS && AllHave(a, k)) ==>
      i <= NUMBITS - 1 - r && AllHave(a, NUMBITS - 1 - r) && forall k :: i <= k < NUMBITS - 1 - r ==> !AllHave(a, k)
    ensures (forall k :: i <= k < NUMBITS ==> !AllHave(a, k)) ==> r == 0
    decreases NUMBITS - i
  {
    if i == NUMBITS then 0
    else if AllHave(a, i) then NUMBITS - i - 1
    else
      assert (exists k :: i <= k < NUMBITS && AllHave(a, k)) ==> exists k :: i + 1 <= k < NUMBITS && AllHave(a, k);
      DepthFrom(a, i + 1)
  }

  /** `depthAsCenter()`: NUMBITS - 1 - i for the lowest bit position i set in every coordinate, 0 if there is none. */
  function DepthAsCenter(p: Point): (r: nat)
    ensures r < NUMBITS
    ensures (exists k :: 0 <= k < NUMBITS && AllHave(p.coors, k)) ==>
      AllHave(p.coors, NUMBITS - 1 - r) && forall k :: 0 <= k < NUMBITS - 1 - r ==> !AllHave(p.coors, k)
    ensures (forall k :: 0 <= k < NUMBITS ==> !AllHave(p.coors, k)) ==> r == 0
  {
    DepthFrom(p.coors, 0)
  }

  /** The centre of a cell of depth d < NUMBITS reports depth d. */
  lemma DepthOfCenter(p: Point, depth: nat)
    requires |p.coors| >= 1 && depth < NUMBITS
    ensures DepthAsCenter(MakeCenter(p, depth)) == depth
  {
    var c := MakeCenter(p, depth);
    var k := NUMBITS - 1 - depth;
    AllHaveBit(c.coors, k);
    assert AllHave(c.coors, k);
    var r := DepthAsCenter(c);
    forall i | 0 <= i < k ensures !AllHave(c.coors, i) {
      AllHaveBit(c.coors, i);
      assert !Bit(c.coors[0] as nat, i);
    }
  }
}
