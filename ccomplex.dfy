/** Cubical complexes: the simplices of one depth, grouped by dimension, the
    boundary maps between consecutive dimensions and, for a complex obtained
    by expansion, the collapsing maps back to the coarser complex. */
module CComplexes {
  import opened Bitsets
  import opened Regions
  import opened Simplices

  type Levels = seq<seq<CSimplex>>

  // ---------------------------------------------------------------------
  // Levels of simplices

  /** Every simplex of level d has dimension d, at most n, and a well-formed
      centre of n coordinates. */
  predicate Fits(levels: Levels, n: nat) {
    forall d, k | 0 <= d < |levels| && 0 <= k < |levels[d]| ::
      levels[d][k].dim == d <= n && SimplexWf(levels[d][k]) && |levels[d][k].center.coors| == n
  }

  /** Every simplex of xs has a well-formed centre of n coordinates and a dimension at most n. */
  predicate InSpace(xs: seq<CSimplex>, n: nat) {
    forall k | 0 <= k < |xs| :: SimplexWf(xs[k]) && |xs[k].center.coors| == n && xs[k].dim <= n
  }

  /** The levels after `add(x)`: padded with empty levels up to x's
      dimension, and x appended to its own level. */
  function Added(levels: Levels, x: CSimplex): (r: Levels)
    ensures |r| == if |levels| <= x.dim then x.dim + 1 else |levels|
    ensures forall d | 0 <= d < |r| ::
      r[d] == (if d < |levels| then levels[d] else []) + (if d == x.dim then [x] else [])
  {
    var padded := if |levels| <= x.dim then levels + seq(x.dim + 1 - |levels|, _ => []) else levels;
    padded[x.dim := padded[x.dim] + [x]]
  }

  /** The levels after adding the simplices of xs in order. */
  function AddedAll(levels: Levels, xs: seq<CSimplex>): Levels
    decreases |xs|
  {
    if xs == [] then levels else Added(AddedAll(levels, xs[..|xs| - 1]), xs[|xs| - 1])
  }

  /** The simplices of xs of dimension d, in order. */
  function Bucket(xs: seq<CSimplex>, d: nat): (r: seq<CSimplex>)
    ensures forall x | x in r :: x in xs && x.dim == d
    decreases |xs|
  {
    if xs == [] then []
    else Bucket(xs[..|xs| - 1], d) + (if xs[|xs| - 1].dim == d then [xs[|xs| - 1]] else [])
  }

  /** The largest dimension among xs, 0 for none. */
  function MaxDim(xs: seq<CSimplex>): (r: nat)
    ensures forall x | x in xs :: x.dim <= r
    ensures xs != [] ==> exists x | x in xs :: x.dim == r
    decreases |xs|
  {
    if xs == [] then 0
    else
      var m := MaxDim(xs[..|xs| - 1]);
      assert forall x | x in xs[..|xs| - 1] :: x in xs;
      if xs[|xs| - 1].dim > m then xs[|xs| - 1].dim else m
  }

  lemma {:induction false} BucketEmpty(xs: seq<CSimplex>, d: nat)
    requires forall x | x in xs :: x.dim != d
    ensures Bucket(xs, d) == []
    decreases |xs|
  {
    if xs != [] {
      assert forall x | x in xs[..|xs| - 1] :: x in xs;
      BucketEmpty(xs[..|xs| - 1], d);
    }
  }

  lemma {:induction false} BucketAppend(xs: seq<CSimplex>, ys: seq<CSimplex>, d: nat)
    ensures Bucket(xs + ys, d) == Bucket(xs, d) + Bucket(ys, d)
    decreases |ys|
  {
    if ys != [] {
      assert (xs + ys)[..|xs + ys| - 1] == xs + ys[..|ys| - 1];
      BucketAppend(xs, ys[..|ys| - 1], d);
    } else {
      assert xs + ys == xs;
    }
  }

  lemma {:induction false} BucketOf(xs: seq<CSimplex>, x: CSimplex)
    requires x in xs
    ensures x in Bucket(xs, x.dim)
    decreases |xs|
  {
    if x != xs[|xs| - 1] {
      assert x in xs[..|xs| - 1];
      BucketOf(xs[..|xs| - 1], x);
    }
  }

  lemma {:induction false} MaxDimAppend(xs: seq<CSimplex>, ys: seq<CSimplex>)
    ensures MaxDim(xs + ys) == if MaxDim(xs) < MaxDim(ys) then MaxDim(ys) else MaxDim(xs)
    decreases |ys|
  {
    if ys != [] {
      assert (xs + ys)[..|xs + ys| - 1] == xs + ys[..|ys| - 1];
      MaxDimAppend(xs, ys[..|ys| - 1]);
    } else {
      assert xs + ys == xs;
    }
  }

  /** The levels after adding xs: as many levels as the largest dimension
      needs, and each level extended by the simplices of its dimension. */
  lemma {:induction false} AddedAllContent(levels: Levels, xs: seq<CSimplex>)
    requires |levels| >= 1
    ensures |AddedAll(levels, xs)| == if |levels| <= MaxDim(xs) then MaxDim(xs) + 1 else |levels|
    ensures forall d | 0 <= d < |AddedAll(levels, xs)| ::
      AddedAll(levels, xs)[d] == (if d < |levels| then levels[d] else []) + Bucket(xs, d)
    decreases |xs|
  {
    if xs != [] {
      var ys, x := xs[..|xs| - 1], xs[|xs| - 1];
      assert xs == ys + [x];
      AddedAllContent(levels, ys);
      AddedStep(levels, AddedAll(levels, ys), ys, x);
    }
  }

  /** One simplex more: the levels L holding `levels` and ys keep the shape after `add(x)`. */
  lemma AddedStep(levels: Levels, L: Levels, ys: seq<CSimplex>, x: CSimplex)
    requires |levels| >= 1
    requires |L| == if |levels| <= MaxDim(ys) then MaxDim(ys) + 1 else |levels|
    requires forall d | 0 <= d < |L| :: L[d] == (if d < |levels| then levels[d] else []) + Bucket(ys, d)
    ensures |Added(L, x)| == if |levels| <= MaxDim(ys + [x]) then MaxDim(ys + [x]) + 1 else |levels|
    ensures forall d | 0 <= d < |Added(L, x)| ::
      Added(L, x)[d] == (if d < |levels| then levels[d] else []) + Bucket(ys + [x], d)
  {
    assert (ys + [x])[..|ys|] == ys;
    forall d | 0 <= d < |Added(L, x)|
      ensures Added(L, x)[d] == (if d < |levels| then levels[d] else []) + Bucket(ys + [x], d)
    {
      var base: seq<CSimplex> := if d < |levels| then levels[d] else [];
      AddedLevel(base, if d < |L| then L[d] else [], Added(L, x)[d], ys, x, d, d < |L|);
    }
  }

  /** One level of `AddedStep`: the level was base followed by the simplices of
      ys of its dimension (or did not exist and base is empty), and x joins it
      when it has that dimension. */
  lemma BucketSnoc(ys: seq<CSimplex>, x: CSimplex, d: nat)
    ensures Bucket(ys + [x], d) == Bucket(ys, d) + (if x.dim == d then [x] else [])
  {
    assert (ys + [x])[..|ys|] == ys;
  }

  lemma AddedLevel(base: seq<CSimplex>, before: seq<CSimplex>, after: seq<CSimplex>, ys: seq<CSimplex>, x: CSimplex, d: nat, existed: bool)
    requires existed ==> before == base + Bucket(ys, d)
    requires !existed ==> before == [] && base == [] && forall y | y in ys :: y.dim != d
    requires after == before + (if d == x.dim then [x] else [])
    requires (ys + [x])[..|ys|] == ys
    ensures after == base + Bucket(ys + [x], d)
  {
    var extra: seq<CSimplex> := if x.dim == d then [x] else [];
    BucketSnoc(ys, x, d);
    if existed {
      assert (base + Bucket(ys, d)) + extra == base + (Bucket(ys, d) + extra);
    } else {
      BucketEmpty(ys, d);
      assert base + (Bucket(ys, d) + extra) == extra;
    }
  }

  lemma {:induction false} AddedAllAppend(levels: Levels, xs: seq<CSimplex>, ys: seq<CSimplex>)
    ensures AddedAll(levels, xs + ys) == AddedAll(AddedAll(levels, xs), ys)
    decreases |ys|
  {
    if ys != [] {
      assert (xs + ys)[..|xs + ys| - 1] == xs + ys[..|ys| - 1];
      AddedAllAppend(levels, xs, ys[..|ys| - 1]);
    } else {
      assert xs + ys == xs;
    }
  }

  /** Adding one simplex more is one `add` more. */
  lemma AddedAllSnoc(levels: Levels, xs: seq<CSimplex>, x: CSimplex)
    ensures AddedAll(levels, xs + [x]) == Added(AddedAll(levels, xs), x)
  {
    assert (xs + [x])[..|xs|] == xs;
  }

  /** Levels that hold, dimension by dimension, exactly the simplices of xs. */
  ghost predicate Tracks(levels: Levels, xs: seq<CSimplex>) {
    && |levels| == MaxDim(xs) + 1
    && forall d | 0 <= d < |levels| :: multiset(levels[d]) == multiset(Bucket(xs, d))
  }

  /** Adding ys to levels tracking xs gives levels tracking xs + ys. */
  lemma TracksAddedAll(levels: Levels, xs: seq<CSimplex>, ys: seq<CSimplex>)
    requires Tracks(levels, xs)
    ensures Tracks(AddedAll(levels, ys), xs + ys)
  {
    AddedAllContent(levels, ys);
    MaxDimAppend(xs, ys);
    var r := AddedAll(levels, ys);
    forall d | 0 <= d < |r| ensures multiset(r[d]) == multiset(Bucket(xs + ys, d)) {
      BucketAppend(xs, ys, d);
      if d >= |levels| {
        BucketEmpty(xs, d);
      }
    }
  }

  /** Levels tracking xs hold only simplices of xs, each at its own dimension. */
  lemma TracksFits(levels: Levels, xs: seq<CSimplex>, n: nat)
    requires Tracks(levels, xs) && InSpace(xs, n)
    ensures Fits(levels, n)
  {
    forall d, k | 0 <= d < |levels| && 0 <= k < |levels[d]|
      ensures levels[d][k].dim == d <= n && SimplexWf(levels[d][k]) && |levels[d][k].center.coors| == n
    {
      assert levels[d][k] in multiset(levels[d]);
      assert levels[d][k] in Bucket(xs, d);
    }
  }

  // ---------------------------------------------------------------------
  // Sorting a level (`std::sort` with `CSimplex::operator<`)

  /** No simplex is smaller than one before it. */
  predicate Sorted(xs: seq<CSimplex>) {
    forall i: nat, j: nat | 0 <= i < j < |xs| :: |xs[i].center.coors| == |xs[j].center.coors| && !Less(xs[j], xs[i])
  }

  /** Simplices with well-formed centres of n coordinates. */
  predicate SameSpace(xs: seq<CSimplex>, n: nat) {
    forall x | x in xs :: SimplexWf(x) && |x.center.coors| == n
  }

  /** x inserted into xs before the first simplex that is not smaller. */
  function Insort(x: CSimplex, xs: seq<CSimplex>): (r: seq<CSimplex>)
    requires forall y | y in xs :: |y.center.coors| == |x.center.coors|
    ensures multiset(r) == multiset(xs) + multiset{x}
  {
    if xs == [] then [x]
    else if Less(xs[0], x) then
      assert xs == [xs[0]] + xs[1..];
      [xs[0]] + Insort(x, xs[1..])
    else [x] + xs
  }

  /** The sorted level: an insertion sort. Since `<` is a strict total order on
      simplices of one space, the sorted arrangement is unique, so this is the
      arrangement `std::sort` produces. */
  function Sort(xs: seq<CSimplex>): (r: seq<CSimplex>)
    requires forall y, z | y in xs && z in xs :: |y.center.coors| == |z.center.coors|
    ensures multiset(r) == multiset(xs)
  {
    if xs == [] then []
    else
      assert xs == [xs[0]] + xs[1..];
      assert forall y | y in Sort(xs[1..]) :: y in multiset(xs[1..]);
      Insort(xs[0], Sort(xs[1..]))
  }

  lemma {:induction false} InsortSorted(x: CSimplex, xs: seq<CSimplex>, n: nat)
    requires SameSpace(xs, n) && SimplexWf(x) && |x.center.coors| == n && Sorted(xs)
    ensures Sorted(Insort(x, xs))
    decreases |xs|
  {
    if xs != [] {
      if Less(xs[0], x) {
        var t := xs[1..];
        assert forall y | y in t :: y in xs;
        InsortSorted(x, t, n);
        InsortAfterHead(x, xs, n);
      } else {
        InsortAtHead(x, xs, n);
      }
    }
  }

  /** x goes after the head of xs: the head stays in front of the rest. */
  lemma InsortAfterHead(x: CSimplex, xs: seq<CSimplex>, n: nat)
    requires SameSpace(xs, n) && SimplexWf(x) && |x.center.coors| == n && Sorted(xs)
    requires xs != [] && Less(xs[0], x) && Sorted(Insort(x, xs[1..]))
    ensures Sorted(Insort(x, xs))
  {
    var t := xs[1..];
    var s := Insort(x, t);
    assert Insort(x, xs) == [xs[0]] + s;
    forall k | 0 <= k < |s| ensures |s[k].center.coors| == |xs[0].center.coors| && !Less(s[k], xs[0]) {
      assert s[k] in multiset(s);
      NotBelowHead(x, xs, n, s[k]);
    }
    ConsSorted(xs[0], s);
  }

  /** Neither x nor anything after the head of xs is smaller than the head. */
  lemma NotBelowHead(x: CSimplex, xs: seq<CSimplex>, n: nat, y: CSimplex)
    requires SameSpace(xs, n) && SimplexWf(x) && |x.center.coors| == n && Sorted(xs)
    requires xs != [] && Less(xs[0], x) && y in multiset(xs[1..]) + multiset{x}
    ensures |y.center.coors| == |xs[0].center.coors| && !Less(y, xs[0])
  {
    assert xs[0] in xs;
    if y == x {
      LessTrichotomy(xs[0], x);
    } else {
      var t := xs[1..];
      assert y in t;
      var q :| 0 <= q < |t| && t[q] == y;
      assert xs[q + 1] == y;
    }
  }

  /** A simplex no later one is smaller than, in front of a sorted list. */
  lemma ConsSorted(h: CSimplex, s: seq<CSimplex>)
    requires Sorted(s)
    requires forall k | 0 <= k < |s| :: |s[k].center.coors| == |h.center.coors| && !Less(s[k], h)
    ensures Sorted([h] + s)
  {
    var r := [h] + s;
    forall i: nat, j: nat | i < j < |r| ensures |r[i].center.coors| == |r[j].center.coors| && !Less(r[j], r[i]) {
      assert r[j] == s[j - 1];
      if i > 0 {
        assert r[i] == s[i - 1];
      }
    }
  }

  /** x goes before the head of xs: nothing in xs is smaller than x. */
  lemma InsortAtHead(x: CSimplex, xs: seq<CSimplex>, n: nat)
    requires SameSpace(xs, n) && SimplexWf(x) && |x.center.coors| == n && Sorted(xs)
    requires xs != [] && !Less(xs[0], x)
    ensures Sorted(Insort(x, xs))
  {
    assert Insort(x, xs) == [x] + xs;
    LessTrichotomy(xs[0], x);
    forall k | 0 <= k < |xs| ensures !Less(xs[k], x) {
      assert xs[k] in xs;
      if k > 0 && Less(xs[k], x) {
        LessTrichotomy(xs[0], xs[k]);
        if Less(xs[0], xs[k]) {
          LessTransitive(xs[0], xs[k], x);
        }
      }
    }
  }

  /** The result of `Sort` is sorted. */
  lemma {:induction false} SortSorted(xs: seq<CSimplex>, n: nat)
    requires SameSpace(xs, n)
    ensures Sorted(Sort(xs))
    decreases |xs|
  {
    if xs != [] {
      var t := xs[1..];
      assert forall y | y in t :: y in xs;
      SortSorted(t, n);
      assert forall y | y in Sort(t) :: y in multiset(t);
      InsortSorted(xs[0], Sort(t), n);
    }
  }

  // ---------------------------------------------------------------------
  // Expansions of a complex
  //
  // The lemmas below speak of the expansions as a map `ex` from a simplex to
  // its list of expansions; `ExpansionMap(inside)` is the map `expansions`
  // computes against the region test `inside`.

  /** `expansions(region)` as a map on simplices; a simplex larger than its
      space has none. */
  function ExpansionMap(inside: seq<Bits> -> bool): CSimplex -> seq<CSimplex> {
    (s: CSimplex) => if s.dim <= |s.center.coors| then ExpansionsOf(s, inside) else []
  }

  /** ex gives the expansions against the test `inside`. The trigger keeps ex
      folded until an expansion list of `inside` is at hand. */
  ghost predicate Realizes(ex: CSimplex -> seq<CSimplex>, inside: seq<Bits> -> bool) {
    forall s: CSimplex {:trigger ExpansionsOf(s, inside)} | s.dim <= |s.center.coors| :: ex(s) == ExpansionsOf(s, inside)
  }

  /** Every expansion of s is a well-formed simplex of s's space, of a dimension
      between s's and the space's. */
  ghost predicate SoundMap(ex: CSimplex -> seq<CSimplex>) {
    forall s, x | x in ex(s) ::
      SimplexWf(x) && |x.center.coors| == |s.center.coors| && s.dim <= x.dim <= |s.center.coors|
  }

  lemma ExpansionMapSound(inside: seq<Bits> -> bool)
    ensures Realizes(ExpansionMap(inside), inside) && SoundMap(ExpansionMap(inside))
  {
    forall s, x | x in ExpansionMap(inside)(s)
      ensures SimplexWf(x) && |x.center.coors| == |s.center.coors| && s.dim <= x.dim <= |s.center.coors|
    {
      ExpansionsOfSound(s, inside);
    }
  }

  /** The expansions of the simplices of ss, in order. */
  function Gather(ss: seq<CSimplex>, ex: CSimplex -> seq<CSimplex>): seq<CSimplex>
    decreases |ss|
  {
    if ss == [] then [] else Gather(ss[..|ss| - 1], ex) + ex(ss[|ss| - 1])
  }

  /** The expansions of every level, lowest level first. */
  function GatherLevels(levels: Levels, ex: CSimplex -> seq<CSimplex>): seq<CSimplex>
    decreases |levels|
  {
    if levels == [] then []
    else GatherLevels(levels[..|levels| - 1], ex) + Gather(levels[|levels| - 1], ex)
  }

  /** Every expansion of a level-d simplex is in n coordinates and of dimension at least d. */
  lemma {:induction false} GatherSound(ss: seq<CSimplex>, ex: CSimplex -> seq<CSimplex>, d: nat, n: nat)
    requires SoundMap(ex) && forall s | s in ss :: s.dim == d <= n && |s.center.coors| == n
    ensures InSpace(Gather(ss, ex), n)
    ensures forall x | x in Gather(ss, ex) :: x.dim >= d
    decreases |ss|
  {
    if ss != [] {
      var init, s := ss[..|ss| - 1], ss[|ss| - 1];
      assert forall t | t in init :: t in ss;
      GatherSound(init, ex, d, n);
      assert s in ss;
      ExpansionsInSpace(s, ex, n);
      assert Gather(ss, ex) == Gather(init, ex) + ex(s);
      InSpaceAppend(Gather(init, ex), ex(s), n);
    }
  }

  /** The expansions of a simplex of n coordinates lie in the same space. */
  lemma ExpansionsInSpace(s: CSimplex, ex: CSimplex -> seq<CSimplex>, n: nat)
    requires SoundMap(ex) && |s.center.coors| == n
    ensures InSpace(ex(s), n) && forall x | x in ex(s) :: x.dim >= s.dim
  {
    forall k | 0 <= k < |ex(s)| ensures SimplexWf(ex(s)[k]) && |ex(s)[k].center.coors| == n && ex(s)[k].dim <= n {
      assert ex(s)[k] in ex(s);
    }
  }

  lemma InSpaceAppend(a: seq<CSimplex>, b: seq<CSimplex>, n: nat)
    requires InSpace(a, n) && InSpace(b, n)
    ensures InSpace(a + b, n)
  {
    forall k | 0 <= k < |a + b| ensures SimplexWf((a + b)[k]) && |(a + b)[k].center.coors| == n && (a + b)[k].dim <= n {
      if k < |a| {
        assert (a + b)[k] == a[k];
      } else {
        assert (a + b)[k] == b[k - |a|];
      }
    }
  }

  /** An expansion of any simplex of ss is among the gathered expansions. */
  lemma {:induction false} GatherHas(ss: seq<CSimplex>, ex: CSimplex -> seq<CSimplex>, v: nat, x: CSimplex)
    requires v < |ss| && x in ex(ss[v])
    ensures x in Gather(ss, ex)
    decreases |ss|
  {
    if v < |ss| - 1 {
      GatherHas(ss[..|ss| - 1], ex, v, x);
    }
  }

  /** A prefix of levels that fit still fits. */
  lemma FitsPrefix(levels: Levels, n: nat, l: nat)
    requires Fits(levels, n) && l <= |levels|
    ensures Fits(levels[..l], n)
  {
    forall d, k | 0 <= d < l && 0 <= k < |levels[..l][d]|
      ensures levels[..l][d][k].dim == d <= n && SimplexWf(levels[..l][d][k]) && |levels[..l][d][k].center.coors| == n
    {
      assert levels[..l][d] == levels[d];
    }
  }

  lemma {:induction false} GatherLevelsSound(levels: Levels, ex: CSimplex -> seq<CSimplex>, n: nat)
    requires SoundMap(ex) && Fits(levels, n)
    ensures InSpace(GatherLevels(levels, ex), n)
    decreases |levels|
  {
    if levels != [] {
      var l := |levels| - 1;
      FitsPrefix(levels, n, l);
      GatherLevelsSound(levels[..l], ex, n);
      GatherSound(levels[l], ex, l, n);
    }
  }

  /** The first position of x in xs, |xs| when absent (`std::find`). */
  function FirstIndex(xs: seq<CSimplex>, x: CSimplex): (r: nat)
    ensures r <= |xs| && (r < |xs| <==> x in xs)
    ensures r < |xs| ==> xs[r] == x
    ensures forall q | 0 <= q < r :: xs[q] != x
    decreases |xs|
  {
    if xs == [] then 0
    else if xs[0] == x then 0
    else
      assert xs == [xs[0]] + xs[1..];
      1 + FirstIndex(xs[1..], x)
  }

  /** `temp_collapsing` for level ss: each same-dimension expansion maps to an
      index of ss whose expansions contain it, and to the last such index. */
  ghost predicate TempOk(temp: map<CSimplex, nat>, ss: seq<CSimplex>, level: nat, ex: CSimplex -> seq<CSimplex>)
  {
    && (forall x | x in temp :: x.dim == level && temp[x] < |ss| && x in ex(ss[temp[x]]))
    && (forall v, x | 0 <= v < |ss| && x in ex(ss[v]) && x.dim == level ::
          x in temp && temp[x] >= v)
  }

  /** A collapsing map from the sorted expanded level `lvl` to the level ss:
      each key is the first position of an expansion of the simplex its value
      indexes, and each same-dimension expansion of a simplex of ss has its
      first position as a key, mapped to the last simplex of ss that produced it. */
  ghost predicate CollapseOk(cm: map<nat, nat>, lvl: seq<CSimplex>, ss: seq<CSimplex>, level: nat, ex: CSimplex -> seq<CSimplex>)
  {
    && (forall p | p in cm ::
          p < |lvl| && cm[p] < |ss| && lvl[p] in ex(ss[cm[p]]) && FirstIndex(lvl, lvl[p]) == p)
    && (forall v, x | 0 <= v < |ss| && x in ex(ss[v]) && x.dim == level ::
          FirstIndex(lvl, x) in cm && cm[FirstIndex(lvl, x)] >= v)
  }

  /** The empty chain coefficient map of a vertex, the facets otherwise: each
      is well-formed and one dimension lower. */
  lemma DifferentialKeys(s: CSimplex)
    requires SimplexWf(s)
    ensures forall f | f in DifferentialOf(s) :: SimplexWf(f) && f.dim + 1 == s.dim
  {
    if s.dim > 0 {
      DifferentialSpec(s);
      forall f | f in DifferentialOf(s) ensures SimplexWf(f) && f.dim + 1 == s.dim {
        var u, up :| 0 <= u < |DirsOf(s)| && f == Face(s, u, up);
      }
    }
  }

  /** `std::find` with `CSimplex::operator==`. */
  method Find(lvl: seq<CSimplex>, x: CSimplex) returns (pos: nat)
    requires forall k | 0 <= k < |lvl| :: SimplexWf(lvl[k])
    requires SimplexWf(x)
    ensures pos == FirstIndex(lvl, x)
  {
    pos := 0;
    while pos < |lvl| && !Eq(lvl[pos], x)
      invariant pos <= |lvl| && forall q | 0 <= q < pos :: lvl[q] != x
    {
      EqIsEquality(lvl[pos], x);
      pos := pos + 1;
    }
    if pos < |lvl| {
      EqIsEquality(lvl[pos], x);
    }
    assert pos < |lvl| ==> lvl[pos] == x;
    FirstIndexIs(lvl, x, pos);
  }

  lemma {:induction false} FirstIndexIs(xs: seq<CSimplex>, x: CSimplex, p: nat)
    requires p <= |xs| && (p < |xs| ==> xs[p] == x) && forall q | 0 <= q < p :: xs[q] != x
    ensures FirstIndex(xs, x) == p
  {
  }

  /** The loop over `temp_collapsing`: each simplex's first position in the
      sorted level maps to its index in the old level. */
  method Collapse(lvl: seq<CSimplex>, temp: map<CSimplex, nat>) returns (final: map<nat, nat>)
    requires forall k | 0 <= k < |lvl| :: SimplexWf(lvl[k])
    requires forall x | x in temp :: x in lvl && SimplexWf(x)
    ensures forall p | p in final :: p < |lvl| && lvl[p] in temp && final[p] == temp[lvl[p]] && FirstIndex(lvl, lvl[p]) == p
    ensures forall x | x in temp :: FirstIndex(lvl, x) in final
  {
    final := map[];
    var images := temp.Keys;
    while images != {}
      invariant images <= temp.Keys
      invariant forall p | p in final ::
        p < |lvl| && lvl[p] in temp && lvl[p] !in images && final[p] == temp[lvl[p]] && FirstIndex(lvl, lvl[p]) == p
      invariant forall x | x in temp && x !in images :: FirstIndex(lvl, x) in final
      decreases |images|
    {
      var image :| image in images;
      var pos := Find(lvl, image);
      final := final[pos := temp[image]];
      images := images - {image};
    }
  }

  /** Simplices added at dimensions `bound` and above leave the levels below
      it as they were, and the levels below it they create are empty. */
  lemma KeepBelow(levels: Levels, xs: seq<CSimplex>, bound: nat)
    requires |levels| >= 1 && forall x | x in xs :: x.dim >= bound
    ensures |AddedAll(levels, xs)| >= |levels|
    ensures forall d | 0 <= d < bound && d < |AddedAll(levels, xs)| ::
      AddedAll(levels, xs)[d] == if d < |levels| then levels[d] else []
  {
    AddedAllContent(levels, xs);
    var all := AddedAll(levels, xs);
    forall d | 0 <= d < bound && d < |all|
      ensures all[d] == if d < |levels| then levels[d] else []
    {
      BucketEmpty(xs, d);
      var base: seq<CSimplex> := if d < |levels| then levels[d] else [];
      assert all[d] == base + Bucket(xs, d);
      assert base + [] == base;
    }
  }

  /** Sorting one level keeps the levels tracking the same simplices. */
  lemma TracksSorted(levels: Levels, xs: seq<CSimplex>, d: nat, n: nat)
    requires Tracks(levels, xs) && Fits(levels, n) && d < |levels|
    ensures SameSpace(levels[d], n)
    ensures Tracks(levels[d := Sort(levels[d])], xs) && Fits(levels[d := Sort(levels[d])], n)
  {
    FitsSameSpace(levels, n, d);
    FitsSorted(levels, n, d);
    var l: Levels := levels[d := Sort(levels[d])];
    assert multiset(l[d]) == multiset(levels[d]);
    forall e | 0 <= e < |l|
      ensures multiset(l[e]) == multiset(Bucket(xs, e))
    {
    }
  }

  /** The simplices of a level that fits share the space. */
  lemma FitsSameSpace(levels: Levels, n: nat, d: nat)
    requires Fits(levels, n) && d < |levels|
    ensures SameSpace(levels[d], n)
  {
    forall x | x in levels[d]
      ensures SimplexWf(x) && |x.center.coors| == n
    {
      var k :| 0 <= k < |levels[d]| && levels[d][k] == x;
    }
  }

  /** Sorting one level of levels that fit keeps them fitting. */
  lemma FitsSorted(levels: Levels, n: nat, d: nat)
    requires Fits(levels, n) && d < |levels| && SameSpace(levels[d], n)
    ensures Fits(levels[d := Sort(levels[d])], n)
  {
    var l: Levels := levels[d := Sort(levels[d])];
    forall e, k | 0 <= e < |l| && 0 <= k < |l[e]|
      ensures l[e][k].dim == e <= n && SimplexWf(l[e][k]) && |l[e][k].center.coors| == n
    {
      if e == d {
        assert l[e][k] in multiset(levels[d]);
      }
    }
  }

  /** Whether `expand` stores a collapsing map for level L: the expansion
      reaches dimension L once levels 0 to L are expanded. */
  ghost function MappedTest(levels: Levels, ex: CSimplex -> seq<CSimplex>): nat -> bool {
    (L: nat) => L < |levels| && L <= MaxDim(GatherLevels(levels[..L + 1], ex))
  }

  /** The numbers below count that pass test, in increasing order. */
  ghost function Select(test: nat -> bool, count: nat): (r: seq<nat>)
    ensures forall k | 0 <= k < |r| :: r[k] < count
    ensures forall a, b | 0 <= a < b < |r| :: r[a] < r[b]
  {
    if count == 0 then []
    else Select(test, count - 1) + (if test(count - 1) then [count - 1] else [])
  }

  /** A number below count is selected exactly when it passes the test. */
  lemma {:induction false} SelectHas(test: nat -> bool, count: nat)
    ensures forall L: nat :: L in Select(test, count) <==> L < count && test(L)
  {
    if count > 0 {
      SelectHas(test, count - 1);
      var prev := Select(test, count - 1);
      var last: seq<nat> := if test(count - 1) then [count - 1] else [];
      assert Select(test, count) == prev + last;
      assert forall L: nat :: L in prev + last <==> L in prev || L in last;
    }
  }

  /** When every number below count passes, the k-th selected is k: when every
      level reaches its own dimension, the collapsing map of level d is the d-th
      one stored, which is the one `getCollapsingMap(d)` returns. */
  lemma {:induction false} SelectAll(test: nat -> bool, count: nat)
    requires forall L: nat | L < count :: test(L)
    ensures |Select(test, count)| == count
    ensures forall k | 0 <= k < count :: Select(test, count)[k] == k
  {
    if count > 0 {
      SelectAll(test, count - 1);
      assert test(count - 1);
      assert Select(test, count) == Select(test, count - 1) + [count - 1];
    }
  }

  /** The keys of `temp_collapsing` are in the expanded level it indexes. */
  lemma TempInLevel(temp: map<CSimplex, nat>, ss: seq<CSimplex>, level: nat, ex: CSimplex -> seq<CSimplex>,
                    so: seq<CSimplex>, lvl: seq<CSimplex>)
    requires SoundMap(ex) && TempOk(temp, ss, level, ex)
    requires multiset(lvl) == multiset(Bucket(so + Gather(ss, ex), level))
    ensures forall x | x in temp :: x in lvl && SimplexWf(x)
  {
    var all := so + Gather(ss, ex);
    forall x | x in temp ensures x in lvl && SimplexWf(x) {
      GatherHas(ss, ex, temp[x], x);
      assert x in all;
      BucketOf(all, x);
      SameMembers(x, Bucket(all, level), lvl);
    }
  }

  /** Sequences with the same multiset of elements have the same members. */
  lemma SameMembers(x: CSimplex, a: seq<CSimplex>, b: seq<CSimplex>)
    requires x in a && multiset(a) == multiset(b)
    ensures x in b
  {
    assert x in multiset(a);
  }

  lemma TempHas(temp: map<CSimplex, nat>, ss: seq<CSimplex>, level: nat, ex: CSimplex -> seq<CSimplex>, v: nat, x: CSimplex)
    requires TempOk(temp, ss, level, ex) && v < |ss| && x in ex(ss[v]) && x.dim == level
    ensures x in temp && temp[x] >= v
  {
  }

  /** The collapsing map built from `temp_collapsing` has its meaning. */
  lemma CollapseFromTemp(final: map<nat, nat>, lvl: seq<CSimplex>, temp: map<CSimplex, nat>,
                         ss: seq<CSimplex>, level: nat, ex: CSimplex -> seq<CSimplex>)
    requires TempOk(temp, ss, level, ex)
    requires forall x | x in temp :: x in lvl
    requires forall p | p in final :: p < |lvl| && lvl[p] in temp && final[p] == temp[lvl[p]] && FirstIndex(lvl, lvl[p]) == p
    requires forall x | x in temp :: FirstIndex(lvl, x) in final
    ensures CollapseOk(final, lvl, ss, level, ex)
  {
    forall v, x | 0 <= v < |ss| && x in ex(ss[v]) && x.dim == level
      ensures FirstIndex(lvl, x) in final && final[FirstIndex(lvl, x)] >= v
    {
      TempHas(temp, ss, level, ex, v, x);
      var p := FirstIndex(lvl, x);
      assert lvl[p] == x;
    }
  }

  /** The collapsing maps stored so far, each for its level. */
  ghost predicate CollapsesOk(cms: seq<map<nat, nat>>, ls: seq<nat>, expanded: Levels, levels: Levels, ex: CSimplex -> seq<CSimplex>)
  {
    && |cms| == |ls|
    && forall k | 0 <= k < |ls| ::
         ls[k] < |expanded| && ls[k] < |levels| && CollapseOk(cms[k], expanded[ls[k]], levels[ls[k]], ls[k], ex)
  }

  /** Levels below `bound` that stay as they were keep their collapsing maps. */
  lemma CollapsesKept(cms: seq<map<nat, nat>>, ls: seq<nat>, before: Levels, after: Levels, levels: Levels,
                      ex: CSimplex -> seq<CSimplex>, bound: nat)
    requires CollapsesOk(cms, ls, before, levels, ex)
    requires forall k | 0 <= k < |ls| :: ls[k] < bound
    requires |after| >= |before| && forall d | 0 <= d < bound && d < |before| :: after[d] == before[d]
    ensures CollapsesOk(cms, ls, after, levels, ex)
  {
    forall k | 0 <= k < |ls|
      ensures ls[k] < |after| && CollapseOk(cms[k], after[ls[k]], levels[ls[k]], ls[k], ex)
    {
      assert after[ls[k]] == before[ls[k]];
    }
  }

  /** `temp_collapsing` after simplices 0 to i - 1 of ss and the expansions
      `part` of simplex i: every key of level's dimension maps to a simplex
      at most i producing it, and to the last one such. */
  ghost predicate TempUpto(temp: map<CSimplex, nat>, ss: seq<CSimplex>, level: nat, ex: CSimplex -> seq<CSimplex>,
                           i: nat, part: seq<CSimplex>)
  {
    && (forall x | x in temp :: x.dim == level && temp[x] <= i && temp[x] < |ss| && x in ex(ss[temp[x]]))
    && (forall v, x | 0 <= v < i && v < |ss| && x in ex(ss[v]) && x.dim == level :: x in temp && temp[x] >= v)
    && (forall x | x in part && x.dim == level :: x in temp && temp[x] == i)
  }

  /** One expansion of simplex i more. */
  lemma TempStep(temp: map<CSimplex, nat>, ss: seq<CSimplex>, level: nat, ex: CSimplex -> seq<CSimplex>,
                 i: nat, exps: seq<CSimplex>, t: nat)
    requires i < |ss| && exps == ex(ss[i]) && t < |exps| && TempUpto(temp, ss, level, ex, i, exps[..t])
    ensures TempUpto(if exps[t].dim == level then temp[exps[t] := i] else temp, ss, level, ex, i, exps[..t + 1])
  {
    assert exps[t] in ex(ss[i]);
    assert exps[..t + 1] == exps[..t] + [exps[t]];
  }

  /** All expansions of simplex i seen: on to simplex i + 1. */
  lemma TempNext(temp: map<CSimplex, nat>, ss: seq<CSimplex>, level: nat, ex: CSimplex -> seq<CSimplex>, i: nat)
    requires i < |ss| && TempUpto(temp, ss, level, ex, i, ex(ss[i]))
    ensures TempUpto(temp, ss, level, ex, i + 1, [])
  {
  }

  lemma TempDone(temp: map<CSimplex, nat>, ss: seq<CSimplex>, level: nat, ex: CSimplex -> seq<CSimplex>)
    requires TempUpto(temp, ss, level, ex, |ss|, [])
    ensures TempOk(temp, ss, level, ex)
  {
  }

  /** The expansions of ss[..i + 1] are those of ss[..i] and then those of ss[i]. */
  lemma GatherNext(ss: seq<CSimplex>, ex: CSimplex -> seq<CSimplex>, i: nat)
    requires i < |ss|
    ensures Gather(ss[..i + 1], ex) == Gather(ss[..i], ex) + ex(ss[i])
  {
    assert ss[..i + 1][..i] == ss[..i];
  }

  /** A simplex of level d of levels that fit n coordinates. */
  lemma LevelSimplex(levels: Levels, n: nat, d: nat, k: nat)
    requires Fits(levels, n) && d < |levels| && k < |levels[d]|
    ensures levels[d][k].dim == d <= n && |levels[d][k].center.coors| == n && SimplexWf(levels[d][k])
  {
  }

  lemma AddedAllNext(levels: Levels, xs: seq<CSimplex>, t: nat)
    requires t < |xs|
    ensures AddedAll(levels, xs[..t + 1]) == Added(AddedAll(levels, xs[..t]), xs[t])
  {
    assert xs[..t + 1] == xs[..t] + [xs[t]];
    AddedAllSnoc(levels, xs[..t], xs[t]);
  }

  /** The inner loop of `expand`: each expansion of simplex i of ss is added
      to `expanded`, and one of dimension `sdim` (the simplex's own) is mapped
      to i in `temp_collapsing`. */
  method AddExpansions(expanded: CComplex, exps: seq<CSimplex>, temp0: map<CSimplex, nat>, i: nat, sdim: nat,
                       ghost ss: seq<CSimplex>, ghost ex: CSimplex -> seq<CSimplex>)
    returns (temp: map<CSimplex, nat>)
    requires expanded.Valid() && i < |ss| && exps == ex(ss[i]) && TempUpto(temp0, ss, sdim, ex, i, [])
    modifies expanded
    ensures expanded.Valid() && expanded.simplices == AddedAll(old(expanded.simplices), exps)
    ensures expanded.depth == old(expanded.depth) && expanded.collapsingMaps == old(expanded.collapsingMaps)
    ensures expanded.region == old(expanded.region)
    ensures TempUpto(temp, ss, sdim, ex, i, exps)
  {
    ghost var levels0 := expanded.simplices;
    temp := temp0;
    var t := 0;
    while t < |exps|
      invariant t <= |exps|
      invariant expanded.Valid() && expanded.simplices == AddedAll(levels0, exps[..t])
      invariant expanded.depth == old(expanded.depth) && expanded.collapsingMaps == old(expanded.collapsingMaps)
      invariant expanded.region == old(expanded.region)
      invariant TempUpto(temp, ss, sdim, ex, i, exps[..t])
    {
      var exp := exps[t];
      expanded.Add(exp);
      AddedAllNext(levels0, exps, t);
      TempStep(temp, ss, sdim, ex, i, exps, t);
      temp := if exp.dim == sdim then temp[exp := i] else temp;
      t := t + 1;
    }
    assert exps[..|exps|] == exps;
  }

  /** The levels of el below bound are sorted. */
  ghost predicate SortedBelow(el: Levels, bound: nat) {
    forall d | 0 <= d < |el| && d < bound :: Sorted(el[d])
  }

  /** What `expand` has built once the levels of `levels` below `bound` are
      expanded: levels el tracking the expansions so, all in n coordinates,
      sorted below bound, with the collapsing maps cms of the levels ls. The
      parts are stated under a trigger on `Tracks(el, so)`, so that they are
      opened only where a proof speaks of what el tracks. */
  ghost predicate Built(el: Levels, cms: seq<map<nat, nat>>, ls: seq<nat>, so: seq<CSimplex>, bound: nat,
                        levels: Levels, ex: CSimplex -> seq<CSimplex>, n: nat)
  {
    forall e {:trigger Tracks(e, so)} | e == el ::
      && Tracks(e, so) && InSpace(so, n) && Fits(e, n) && SortedBelow(e, bound)
      && CollapsesOk(cms, ls, e, levels, ex) && (forall k | 0 <= k < |ls| :: ls[k] < bound)
  }

  /** The parts of `Built`. */
  lemma BuiltOpen(el: Levels, cms: seq<map<nat, nat>>, ls: seq<nat>, so: seq<CSimplex>, bound: nat,
                  levels: Levels, ex: CSimplex -> seq<CSimplex>, n: nat)
    requires Built(el, cms, ls, so, bound, levels, ex, n)
    ensures Tracks(el, so) && InSpace(so, n) && Fits(el, n) && SortedBelow(el, bound)
    ensures CollapsesOk(cms, ls, el, levels, ex) && forall k | 0 <= k < |ls| :: ls[k] < bound
  {
  }

  lemma BuiltClose(el: Levels, cms: seq<map<nat, nat>>, ls: seq<nat>, so: seq<CSimplex>, bound: nat,
                   levels: Levels, ex: CSimplex -> seq<CSimplex>, n: nat)
    requires Tracks(el, so) && InSpace(so, n) && Fits(el, n) && SortedBelow(el, bound)
    requires CollapsesOk(cms, ls, el, levels, ex) && forall k | 0 <= k < |ls| :: ls[k] < bound
    ensures Built(el, cms, ls, so, bound, levels, ex, n)
  {
  }

  /** The complex `expand` starts from: one empty level of vertices. */
  lemma BuiltEmpty(levels: Levels, ex: CSimplex -> seq<CSimplex>, n: nat)
    ensures Built([[]], [], [], [], 0, levels, ex, n)
  {
    assert Bucket([], 0) == [];
    BuiltClose([[]], [], [], [], 0, levels, ex, n);
  }

  /** Adding the expansions of level `level` keeps what was built below it. */
  lemma LevelExpanded(before: Levels, after: Levels, cms: seq<map<nat, nat>>, ls: seq<nat>, so: seq<CSimplex>,
                      level: nat, levels: Levels, ex: CSimplex -> seq<CSimplex>, n: nat)
    requires SoundMap(ex) && Fits(levels, n) && level < |levels|
    requires Built(before, cms, ls, so, level, levels, ex, n)
    requires after == AddedAll(before, Gather(levels[level], ex))
    ensures Built(after, cms, ls, so + Gather(levels[level], ex), level, levels, ex, n)
  {
    BuiltOpen(before, cms, ls, so, level, levels, ex, n);
    var g := Gather(levels[level], ex);
    forall s | s in levels[level] ensures s.dim == level <= n && |s.center.coors| == n {
      var k :| 0 <= k < |levels[level]| && levels[level][k] == s;
      LevelSimplex(levels, n, level, k);
    }
    GatherSound(levels[level], ex, level, n);
    TracksAddedAll(before, so, g);
    KeepBelow(before, g, level);
    CollapsesKept(cms, ls, before, after, levels, ex, level);
    InSpaceAppend(so, g, n);
    TracksFits(after, so + g, n);
    forall d | 0 <= d < |after| && d < level ensures Sorted(after[d]) {
      if d >= |before| {
        assert after[d] == [];
      }
    }
    BuiltClose(after, cms, ls, so + g, level, levels, ex, n);
  }

  /** A level of levels tracking so, all in n coordinates, lies in one space. */
  lemma LevelSpace(el: Levels, cms: seq<map<nat, nat>>, ls: seq<nat>, so: seq<CSimplex>, bound: nat,
                   levels: Levels, ex: CSimplex -> seq<CSimplex>, n: nat, d: nat)
    requires Built(el, cms, ls, so, bound, levels, ex, n) && d < |el|
    ensures SameSpace(el[d], n)
  {
    BuiltOpen(el, cms, ls, so, bound, levels, ex, n);
    TracksSorted(el, so, d, n);
  }

  /** Sorting level `bound` extends the sorted levels by one. */
  lemma LevelSorted(before: Levels, after: Levels, cms: seq<map<nat, nat>>, ls: seq<nat>, so: seq<CSimplex>,
                    bound: nat, levels: Levels, ex: CSimplex -> seq<CSimplex>, n: nat)
    requires Built(before, cms, ls, so, bound, levels, ex, n) && bound < |before| && SameSpace(before[bound], n)
    requires after == before[bound := Sort(before[bound])]
    ensures Built(after, cms, ls, so, bound + 1, levels, ex, n)
    ensures multiset(after[bound]) == multiset(Bucket(so, bound))
    ensures forall k | 0 <= k < |after[bound]| :: SimplexWf(after[bound][k])
  {
    BuiltOpen(before, cms, ls, so, bound, levels, ex, n);
    TracksSorted(before, so, bound, n);
    SortSorted(before[bound], n);
    CollapsesKept(cms, ls, before, after, levels, ex, bound);
    BuiltClose(after, cms, ls, so, bound + 1, levels, ex, n);
    forall k | 0 <= k < |after[bound]| ensures SimplexWf(after[bound][k]) {
      LevelSimplex(after, n, bound, k);
    }
  }

  /** Storing the collapsing map of level `level`. */
  lemma CollapsePushed(el: Levels, cms: seq<map<nat, nat>>, ls: seq<nat>, so: seq<CSimplex>, level: nat,
                       levels: Levels, ex: CSimplex -> seq<CSimplex>, n: nat, final: map<nat, nat>)
    requires Built(el, cms, ls, so, level + 1, levels, ex, n) && level < |el| && level < |levels|
    requires CollapseOk(final, el[level], levels[level], level, ex)
    ensures Built(el, cms + [final], ls + [level], so, level + 1, levels, ex, n)
  {
    BuiltOpen(el, cms, ls, so, level + 1, levels, ex, n);
    var cms', ls' := cms + [final], ls + [level];
    forall k | 0 <= k < |ls'|
      ensures ls'[k] < |el| && ls'[k] < |levels| && CollapseOk(cms'[k], el[ls'[k]], levels[ls'[k]], ls'[k], ex)
    {
      if k < |ls| {
        assert cms'[k] == cms[k] && ls'[k] == ls[k];
      }
    }
    BuiltClose(el, cms', ls', so, level + 1, levels, ex, n);
  }

  /** Past the last level there is nothing more to sort. */
  lemma BuiltBeyond(el: Levels, cms: seq<map<nat, nat>>, ls: seq<nat>, so: seq<CSimplex>, bound: nat,
                    levels: Levels, ex: CSimplex -> seq<CSimplex>, n: nat)
    requires Built(el, cms, ls, so, bound, levels, ex, n) && |el| <= bound
    ensures Built(el, cms, ls, so, bound + 1, levels, ex, n)
  {
    BuiltOpen(el, cms, ls, so, bound, levels, ex, n);
    BuiltClose(el, cms, ls, so, bound + 1, levels, ex, n);
  }

  /** Sorted up to or past the last level is sorted up to it. */
  lemma BuiltDown(el: Levels, cms: seq<map<nat, nat>>, ls: seq<nat>, so: seq<CSimplex>, bound: nat,
                  levels: Levels, ex: CSimplex -> seq<CSimplex>, n: nat)
    requires Built(el, cms, ls, so, bound, levels, ex, n) && |el| <= bound
    ensures Built(el, cms, ls, so, |el|, levels, ex, n)
  {
    BuiltOpen(el, cms, ls, so, bound, levels, ex, n);
    BuiltClose(el, cms, ls, so, |el|, levels, ex, n);
  }

  /** Once every level is sorted. */
  lemma BuiltAll(el: Levels, cms: seq<map<nat, nat>>, ls: seq<nat>, so: seq<CSimplex>, bound: nat,
                 levels: Levels, ex: CSimplex -> seq<CSimplex>, n: nat)
    requires Built(el, cms, ls, so, bound, levels, ex, n) && |el| <= bound
    ensures Tracks(el, so) && Fits(el, n) && CollapsesOk(cms, ls, el, levels, ex)
    ensures forall d | 0 <= d < |el| :: Sorted(el[d])
  {
    BuiltOpen(el, cms, ls, so, bound, levels, ex, n);
  }

  /** The levels built number one more than the largest dimension expanded to. */
  lemma BuiltLength(el: Levels, cms: seq<map<nat, nat>>, ls: seq<nat>, so: seq<CSimplex>, bound: nat,
                    levels: Levels, ex: CSimplex -> seq<CSimplex>, n: nat)
    requires Built(el, cms, ls, so, bound, levels, ex, n)
    ensures |el| == MaxDim(so) + 1
  {
    BuiltOpen(el, cms, ls, so, bound, levels, ex, n);
  }

  /** The expansions of the levels up to `level` are those below it and then its own. */
  lemma GatherLevelsNext(levels: Levels, ex: CSimplex -> seq<CSimplex>, level: nat)
    requires level < |levels|
    ensures GatherLevels(levels[..level + 1], ex) == GatherLevels(levels[..level], ex) + Gather(levels[level], ex)
  {
    assert levels[..level + 1][..level] == levels[..level];
  }

  /** After level `level`, so holds the expansions of the levels up to it,
      and ls the levels up to it that the expansion reaches. */
  lemma ProgressNext(el: Levels, cms: seq<map<nat, nat>>, ls: seq<nat>, so: seq<CSimplex>, ls': seq<nat>,
                     so': seq<CSimplex>, level: nat, levels: Levels, ex: CSimplex -> seq<CSimplex>, n: nat)
    requires level < |levels| && so == GatherLevels(levels[..level], ex) && ls == Select(MappedTest(levels, ex), level)
    requires so' == so + Gather(levels[level], ex) && ls' == ls + (if level < |el| then [level] else [])
    requires Built(el, cms, ls', so', level + 1, levels, ex, n)
    ensures so' == GatherLevels(levels[..level + 1], ex) && ls' == Select(MappedTest(levels, ex), level + 1)
  {
    GatherLevelsNext(levels, ex, level);
    BuiltLength(el, cms, ls', so', level + 1, levels, ex, n);
    assert MappedTest(levels, ex)(level) == (level <= MaxDim(so'));
  }

  /** The branch of `expand` for a level the expansion reaches: the level
      of `expanded` is sorted, and the collapsing map from its simplices to
      those of levels[level] is built from `temp_collapsing` and stored. */
  method SortAndCollapse(expanded: CComplex, level: nat, temp: map<CSimplex, nat>, ghost levels: Levels,
                         ghost ex: CSimplex -> seq<CSimplex>, ghost n: nat, ghost prev: seq<CSimplex>,
                         ghost so: seq<CSimplex>, ghost ls: seq<nat>)
    requires SoundMap(ex) && level < |levels| && level < |expanded.simplices|
    requires TempOk(temp, levels[level], level, ex) && so == prev + Gather(levels[level], ex)
    requires Built(expanded.simplices, expanded.collapsingMaps, ls, so, level, levels, ex, n)
    modifies expanded
    ensures |expanded.simplices| == |old(expanded.simplices)|
    ensures forall d | 0 <= d < |expanded.simplices| && d != level :: expanded.simplices[d] == old(expanded.simplices)[d]
    ensures multiset(expanded.simplices[level]) == multiset(old(expanded.simplices)[level])
    ensures |expanded.collapsingMaps| == |old(expanded.collapsingMaps)| + 1
    ensures expanded.collapsingMaps[..|old(expanded.collapsingMaps)|] == old(expanded.collapsingMaps)
    ensures expanded.dim == old(expanded.dim) && expanded.depth == old(expanded.depth) && expanded.region == old(expanded.region)
    ensures Built(expanded.simplices, expanded.collapsingMaps, ls + [level], so, level + 1, levels, ex, n)
  {
    ghost var unsorted := expanded.simplices;
    LevelSpace(unsorted, expanded.collapsingMaps, ls, so, level, levels, ex, n, level);
    var sorted := Sort(expanded.simplices[level]);
    expanded.simplices := expanded.simplices[level := sorted];
    LevelSorted(unsorted, expanded.simplices, expanded.collapsingMaps, ls, so, level, levels, ex, n);
    TempInLevel(temp, levels[level], level, ex, prev, sorted);
    var final := Collapse(sorted, temp);
    CollapseFromTemp(final, sorted, temp, levels[level], level, ex);
    CollapsePushed(expanded.simplices, expanded.collapsingMaps, ls, so, level, levels, ex, n, final);
    expanded.collapsingMaps := expanded.collapsingMaps + [final];
  }

  /** after is before with the levels from `from` up to l replaced by
      permutations of themselves. */
  ghost predicate ResortedBetween(before: Levels, after: Levels, from: nat, l: nat) {
    && |after| == |before|
    && (forall d | 0 <= d < |after| && (d < from || l <= d) :: after[d] == before[d])
    && (forall d | 0 <= d < |after| :: multiset(after[d]) == multiset(before[d]))
  }

  /** Replacing level l by a permutation of itself extends the resorted range. */
  lemma ResortedStep(before: Levels, mid: Levels, after: Levels, from: nat, l: nat)
    requires ResortedBetween(before, mid, from, l) && from <= l < |mid|
    requires |after| == |mid| && multiset(after[l]) == multiset(mid[l])
    requires forall d | 0 <= d < |after| && d != l :: after[d] == mid[d]
    ensures ResortedBetween(before, after, from, l + 1)
  {
  }

  /** Past the last level the range covers every level from `from` on. */
  lemma ResortedDone(before: Levels, after: Levels, from: nat, l: nat)
    requires ResortedBetween(before, after, from, l) && |after| <= l && (l == from || l <= |after|)
    ensures ResortedBetween(before, after, from, |after|)
  {
  }

  /** The last loop of `expand`: the levels from `from` on, which no level
      of the original complex maps to, are sorted. */
  method SortRemaining(expanded: CComplex, from: nat, ghost levels: Levels, ghost ex: CSimplex -> seq<CSimplex>,
                       ghost n: nat, ghost so: seq<CSimplex>, ghost ls: seq<nat>)
    requires Built(expanded.simplices, expanded.collapsingMaps, ls, so, from, levels, ex, n)
    modifies expanded
    ensures ResortedBetween(old(expanded.simplices), expanded.simplices, from, |expanded.simplices|)
    ensures expanded.dim == old(expanded.dim) && expanded.depth == old(expanded.depth)
    ensures expanded.region == old(expanded.region) && expanded.collapsingMaps == old(expanded.collapsingMaps)
    ensures Built(expanded.simplices, expanded.collapsingMaps, ls, so, |expanded.simplices|, levels, ex, n)
  {
    var l := from;
    while l < |expanded.simplices|
      invariant from <= l && (l == from || l <= |expanded.simplices|)
      invariant ResortedBetween(old(expanded.simplices), expanded.simplices, from, l)
      invariant expanded.dim == old(expanded.dim) && expanded.depth == old(expanded.depth)
      invariant expanded.region == old(expanded.region) && expanded.collapsingMaps == old(expanded.collapsingMaps)
      invariant Built(expanded.simplices, expanded.collapsingMaps, ls, so, l, levels, ex, n)
    {
      ResortLevel(expanded, from, l, old(expanded.simplices), levels, ex, n, so, ls);
      l := l + 1;
    }
    ResortedDone(old(expanded.simplices), expanded.simplices, from, l);
    BuiltDown(expanded.simplices, expanded.collapsingMaps, ls, so, l, levels, ex, n);
  }

  /** One pass of that loop: level l is sorted. */
  method ResortLevel(expanded: CComplex, from: nat, l: nat, ghost orig: Levels, ghost levels: Levels,
                     ghost ex: CSimplex -> seq<CSimplex>, ghost n: nat, ghost so: seq<CSimplex>, ghost ls: seq<nat>)
    requires from <= l < |expanded.simplices| && ResortedBetween(orig, expanded.simplices, from, l)
    requires Built(expanded.simplices, expanded.collapsingMaps, ls, so, l, levels, ex, n)
    modifies expanded
    ensures |expanded.simplices| == |old(expanded.simplices)|
    ensures ResortedBetween(orig, expanded.simplices, from, l + 1)
    ensures expanded.dim == old(expanded.dim) && expanded.depth == old(expanded.depth)
    ensures expanded.region == old(expanded.region) && expanded.collapsingMaps == old(expanded.collapsingMaps)
    ensures Built(expanded.simplices, expanded.collapsingMaps, ls, so, l + 1, levels, ex, n)
  {
    ghost var unsorted := expanded.simplices;
    LevelSpace(unsorted, expanded.collapsingMaps, ls, so, l, levels, ex, n, l);
    expanded.simplices := expanded.simplices[l := Sort(expanded.simplices[l])];
    LevelSorted(unsorted, expanded.simplices, expanded.collapsingMaps, ls, so, l, levels, ex, n);
    ResortedStep(orig, unsorted, expanded.simplices, from, l);
  }

  /** `simplex.expansions(*region_)`, read through a map ex that gives the
      expansions against the region's test. */
  method ExpansionsIn(s: CSimplex, region: Region, ghost inside: seq<Bits> -> bool, ghost ex: CSimplex -> seq<CSimplex>)
    returns (exps: seq<CSimplex>)
    requires region.Valid() && RegionTest(region) == inside && Realizes(ex, inside)
    requires |s.center.coors| == |region.corner.coors| && s.dim <= |s.center.coors|
    modifies region
    ensures region.Valid() && region.Data() == old(region.Data()) && RegionTest(region) == inside
    ensures exps == ex(s)
  {
    exps := Expansions(s, region);
    RegionHolds(region);
  }

  /** The loop of `expand` over one level ss: every expansion of every simplex
      of the level is added to `expanded`, and `temp_collapsing` maps each
      expansion of the level's own dimension to the last simplex producing it. */
  method ExpandLevel(expanded: CComplex, ss: seq<CSimplex>, level: nat, region: Region,
                     ghost inside: seq<Bits> -> bool, ghost ex: CSimplex -> seq<CSimplex>, ghost n: nat)
    returns (temp: map<CSimplex, nat>)
    requires forall k | 0 <= k < |ss| :: ss[k].dim == level && ss[k].dim <= n && |ss[k].center.coors| == n
    requires region.Valid() && RegionTest(region) == inside && n == |region.corner.coors|
    requires Realizes(ex, inside) && expanded.Valid()
    modifies expanded, region
    ensures region.Valid() && region.Data() == old(region.Data()) && RegionTest(region) == inside
    ensures expanded.Valid() && expanded.simplices == AddedAll(old(expanded.simplices), Gather(ss, ex))
    ensures expanded.depth == old(expanded.depth) && expanded.collapsingMaps == old(expanded.collapsingMaps)
    ensures expanded.region == old(expanded.region)
    ensures TempOk(temp, ss, level, ex)
  {
    ghost var levels0 := expanded.simplices;
    temp := map[];
    var i := 0;
    while i < |ss|
      invariant i <= |ss|
      invariant region.Valid() && region.Data() == old(region.Data()) && RegionTest(region) == inside
      invariant expanded.Valid() && expanded.simplices == AddedAll(levels0, Gather(ss[..i], ex))
      invariant expanded.depth == old(expanded.depth) && expanded.collapsingMaps == old(expanded.collapsingMaps)
      invariant expanded.region == old(expanded.region)
      invariant TempUpto(temp, ss, level, ex, i, [])
    {
      temp := ExpandSimplex(expanded, ss, i, level, region, temp, inside, ex, n, levels0);
      i := i + 1;
    }
    assert ss[..|ss|] == ss;
    TempDone(temp, ss, level, ex);
  }

  /** One pass of that loop: the expansions of simplex i of ss. */
  method ExpandSimplex(expanded: CComplex, ss: seq<CSimplex>, i: nat, level: nat, region: Region,
                       temp0: map<CSimplex, nat>, ghost inside: seq<Bits> -> bool,
                       ghost ex: CSimplex -> seq<CSimplex>, ghost n: nat, ghost levels0: Levels)
    returns (temp: map<CSimplex, nat>)
    requires i < |ss| && ss[i].dim == level <= n && |ss[i].center.coors| == n
    requires region.Valid() && RegionTest(region) == inside && n == |region.corner.coors|
    requires Realizes(ex, inside) && expanded.Valid()
    requires expanded.simplices == AddedAll(levels0, Gather(ss[..i], ex)) && TempUpto(temp0, ss, level, ex, i, [])
    modifies expanded, region
    ensures region.Valid() && region.Data() == old(region.Data()) && RegionTest(region) == inside
    ensures expanded.Valid() && expanded.simplices == AddedAll(levels0, Gather(ss[..i + 1], ex))
    ensures expanded.depth == old(expanded.depth) && expanded.collapsingMaps == old(expanded.collapsingMaps)
    ensures expanded.region == old(expanded.region)
    ensures TempUpto(temp, ss, level, ex, i + 1, [])
  {
    var simplex := ss[i];
    var exps := ExpansionsIn(simplex, region, inside, ex);
    ghost var prefix := Gather(ss[..i], ex);
    temp := AddExpansions(expanded, exps, temp0, i, simplex.dim, ss, ex);
    AddedAllAppend(levels0, prefix, exps);
    TempNext(temp, ss, level, ex, i);
    GatherNext(ss, ex, i);
  }

  /** The simplices of level d of levels that fit n coordinates. */
  lemma LevelSimplices(levels: Levels, n: nat, d: nat, ss: seq<CSimplex>)
    requires Fits(levels, n) && d < |levels| && ss == levels[d]
    ensures forall k | 0 <= k < |ss| :: ss[k].dim == d && ss[k].dim <= n && |ss[k].center.coors| == n
  {
    forall k | 0 <= k < |ss| ensures ss[k].dim == d && ss[k].dim <= n && |ss[k].center.coors| == n {
      LevelSimplex(levels, n, d, k);
    }
  }

  /** One pass of the loop of `expand` over the levels: level `level` of
      levels is expanded into `expanded`, and when the expansion reaches that
      dimension, its level is sorted and the collapsing map stored. */
  method ExpandStep(expanded: CComplex, levels: Levels, level: nat, region: Region, ghost inside: seq<Bits> -> bool,
                    ghost ex: CSimplex -> seq<CSimplex>, ghost n: nat, ghost so: seq<CSimplex>, ghost ls: seq<nat>)
    returns (ghost so': seq<CSimplex>, ghost ls': seq<nat>)
    requires level < |levels| && Fits(levels, n)
    requires region.Valid() && RegionTest(region) == inside && n == |region.corner.coors|
    requires Realizes(ex, inside) && SoundMap(ex)
    requires expanded.Valid() && Built(expanded.simplices, expanded.collapsingMaps, ls, so, level, levels, ex, n)
    modifies expanded, region
    ensures region.Valid() && region.Data() == old(region.Data()) && RegionTest(region) == inside
    ensures expanded.Valid() && expanded.depth == old(expanded.depth) && expanded.region == old(expanded.region)
    ensures so' == so + Gather(levels[level], ex)
    ensures ls' == ls + (if level < |expanded.simplices| then [level] else [])
    ensures Built(expanded.simplices, expanded.collapsingMaps, ls', so', level + 1, levels, ex, n)
  {
    ghost var before := expanded.simplices;
    var ss := levels[level];
    LevelSimplices(levels, n, level, ss);
    var temp := ExpandLevel(expanded, ss, level, region, inside, ex, n);
    so' := so + Gather(ss, ex);
    LevelExpanded(before, expanded.simplices, expanded.collapsingMaps, ls, so, level, levels, ex, n);
    ls' := ls;
    if level < |expanded.simplices| {
      SortAndCollapse(expanded, level, temp, levels, ex, n, so, so', ls);
      ls' := ls + [level];
    } else {
      BuiltBeyond(expanded.simplices, expanded.collapsingMaps, ls, so', level, levels, ex, n);
    }
  }

  /** One pass of the loop of `expand`, with the expansions and the mapped
      levels so far stated against the levels before it. */
  method ExpandNext(expanded: CComplex, levels: Levels, level: nat, region: Region, ghost inside: seq<Bits> -> bool,
                    ghost ex: CSimplex -> seq<CSimplex>, ghost n: nat, ghost so: seq<CSimplex>, ghost ls: seq<nat>)
    returns (ghost so': seq<CSimplex>, ghost ls': seq<nat>)
    requires level < |levels| && Fits(levels, n)
    requires region.Valid() && RegionTest(region) == inside && n == |region.corner.coors|
    requires Realizes(ex, inside) && SoundMap(ex)
    requires expanded.Valid() && Built(expanded.simplices, expanded.collapsingMaps, ls, so, level, levels, ex, n)
    requires so == GatherLevels(levels[..level], ex) && ls == Select(MappedTest(levels, ex), level)
    modifies expanded, region
    ensures region.Valid() && region.Data() == old(region.Data()) && RegionTest(region) == inside
    ensures expanded.Valid() && expanded.depth == old(expanded.depth) && expanded.region == old(expanded.region)
    ensures so' == GatherLevels(levels[..level + 1], ex) && ls' == Select(MappedTest(levels, ex), level + 1)
    ensures Built(expanded.simplices, expanded.collapsingMaps, ls', so', level + 1, levels, ex, n)
  {
    so', ls' := ExpandStep(expanded, levels, level, region, inside, ex, n, so, ls);
    ProgressNext(expanded.simplices, expanded.collapsingMaps, ls, so, ls', so', level, levels, ex, n);
  }

  /** The loop of `expand` over the levels of levels: each is expanded into
      `expanded` and, when the expansion reaches its dimension, that level is
      sorted and its collapsing map stored. */
  method ExpandLevels(expanded: CComplex, levels: Levels, region: Region, ghost ex: CSimplex -> seq<CSimplex>,
                      ghost n: nat)
    returns (ghost so: seq<CSimplex>, ghost ls: seq<nat>)
    requires region.Valid() && n == |region.corner.coors|
    requires Fits(levels, n) && Realizes(ex, RegionTest(region)) && SoundMap(ex)
    requires expanded.Valid() && expanded.simplices == [[]] && expanded.collapsingMaps == []
    modifies expanded, region
    ensures region.Valid() && region.Data() == old(region.Data()) && RegionTest(region) == old(RegionTest(region))
    ensures expanded.Valid() && expanded.depth == old(expanded.depth) && expanded.region == old(expanded.region)
    ensures so == GatherLevels(levels, ex)
    ensures ls == Select(MappedTest(levels, ex), |levels|)
    ensures Built(expanded.simplices, expanded.collapsingMaps, ls, so, |levels|, levels, ex, n)
  {
    ghost var inside := RegionTest(region);
    ghost var data, depth, home := region.Data(), expanded.depth, expanded.region;
    ls := [];
    so := [];
    BuiltEmpty(levels, ex, n);
    var level := 0;
    while level < |levels|
      invariant level <= |levels|
      invariant expanded.Valid() && expanded.depth == depth && expanded.region == home
      invariant region.Valid() && region.Data() == data && RegionTest(region) == inside
      invariant so == GatherLevels(levels[..level], ex)
      invariant ls == Select(MappedTest(levels, ex), level)
      invariant Built(expanded.simplices, expanded.collapsingMaps, ls, so, level, levels, ex, n)
    {
      so, ls := ExpandNext(expanded, levels, level, region, inside, ex, n, so, ls);
      level := level + 1;
    }
    assert levels[..|levels|] == levels;
  }

  // ---------------------------------------------------------------------
  // The complex

  class CComplex {
    var dim: nat
    var depth: nat
    var simplices: Levels
    var collapsingMaps: seq<map<nat, nat>>
    var region: Region?

    /** One level for each dimension up to `dim_`. */
    predicate Valid()
      reads this
    {
      |simplices| == dim + 1
    }

    /** The default constructor: no levels (and no region), so `Valid()` does not hold. */
    constructor ()
      ensures dim == 0 && depth == 0 && simplices == [] && collapsingMaps == [] && region == null
    {
      dim, depth, simplices, collapsingMaps, region := 0, 0, [], [], null;
    }

    /** An empty complex of the given depth: one empty level, of vertices. */
    constructor WithDepth(depth: nat, region: Region?)
      ensures Valid() && dim == 0 && this.depth == depth && simplices == [[]]
      ensures collapsingMaps == [] && this.region == region
    {
      dim, this.depth, simplices, collapsingMaps, this.region := 0, depth, [[]], [], region;
    }

    /** `numSimplicesIn(d)`: the size of level d, 0 above the complex's dimension. */
    function NumSimplicesIn(d: nat): (r: nat)
      requires Valid()
      reads this
      ensures d <= dim ==> r == |simplices[d]|
      ensures d > dim ==> r == 0
    {
      if d > dim then 0 else |simplices[d]|
    }

    /** `add(s)`: the levels grow up to s's dimension and s joins its level. */
    method Add(s: CSimplex)
      requires Valid()
      modifies this
      ensures Valid() && dim == if old(dim) < s.dim then s.dim else old(dim)
      ensures simplices == Added(old(simplices), s)
      ensures forall d :: NumSimplicesIn(d) == old(NumSimplicesIn(d)) + (if d == s.dim then 1 else 0)
      ensures depth == old(depth) && collapsingMaps == old(collapsingMaps) && region == old(region)
    {
      while dim < s.dim
        invariant old(dim) <= dim && (dim == old(dim) || dim <= s.dim) && |simplices| == dim + 1
        invariant simplices[..|old(simplices)|] == old(simplices)
        invariant forall d | |old(simplices)| <= d < |simplices| :: simplices[d] == []
        invariant depth == old(depth) && collapsingMaps == old(collapsingMaps) && region == old(region)
      {
        simplices := simplices + [[]];
        dim := dim + 1;
      }
      ghost var grown := simplices;
      simplices := simplices[s.dim := simplices[s.dim] + [s]];
      forall d | 0 <= d < |simplices|
        ensures simplices[d] == (if d < |old(simplices)| then old(simplices)[d] else []) + (if d == s.dim then [s] else [])
      {
        if d < |old(simplices)| {
          assert old(simplices)[d] == grown[..|old(simplices)|][d];
        }
      }
    }

    /** `getCollapsingMap(d)`: the stored map, the empty map when there is none. */
    function GetCollapsingMap(d: nat): (r: map<nat, nat>)
      reads this
      ensures d < |collapsingMaps| ==> r == collapsingMaps[d]
      ensures |collapsingMaps| <= d ==> r == map[]
    {
      if |collapsingMaps| < d + 1 then map[] else collapsingMaps[d]
    }

    /** `expand()`: the complex one level deeper, holding every expansion of
        every simplex, each level sorted; for each level L of this complex that
        the expansion reaches, a collapsing map from the sorted level L of the
        expansion back to level L here. `mapLevels` lists those levels, in the
        order their maps are stored. `ex` stands for `CSimplex::expansions`
        against the region: `ExpansionMap(RegionTest(region))` is such a map. */
    method Expand(ghost ex: CSimplex -> seq<CSimplex>) returns (expanded: CComplex, ghost mapLevels: seq<nat>)
      requires Valid() && region != null && region.Valid() && Fits(simplices, |region.corner.coors|)
      requires Realizes(ex, RegionTest(region)) && SoundMap(ex)
      modifies region
      ensures region.Valid() && region.Data() == old(region.Data()) && RegionTest(region) == old(RegionTest(region))
      ensures fresh(expanded) && expanded.Valid() && expanded.depth == depth + 1 && expanded.region == region
      ensures Fits(expanded.simplices, |region.corner.coors|)
      ensures Tracks(expanded.simplices, GatherLevels(simplices, ex))
      ensures forall d | 0 <= d < |expanded.simplices| :: Sorted(expanded.simplices[d])
      ensures mapLevels == Select(MappedTest(simplices, ex), |simplices|)
      ensures CollapsesOk(expanded.collapsingMaps, mapLevels, expanded.simplices, simplices, ex)
    {
      ghost var n := |region.corner.coors|;
      expanded := new CComplex.WithDepth(depth + 1, region);
      ghost var so;
      so, mapLevels := ExpandLevels(expanded, simplices, region, ex, n);
      SortRemaining(expanded, |simplices|, simplices, ex, n, so, mapLevels);
      BuiltAll(expanded.simplices, expanded.collapsingMaps, mapLevels, so, |expanded.simplices|, simplices, ex, n);
    }

    /** `getDifferentialMap(d)`: (i, j) is a key exactly when face j of level
        d - 1 occurs in the differential of simplex i of level d, and its value
        is that face's coefficient. */
    method GetDifferentialMap(d: nat) returns (diffMap: map<(nat, nat), int>)
      requires Valid() && 0 < d <= dim
      requires forall l, k | 0 <= l < |simplices| && 0 <= k < |simplices[l]| :: SimplexWf(simplices[l][k])
      ensures forall i: nat, j: nat :: (i, j) in diffMap <==>
        i < |simplices[d]| && j < |simplices[d - 1]| && simplices[d - 1][j] in DifferentialOf(simplices[d][i])
      ensures forall i: nat, j: nat | (i, j) in diffMap ::
        i < |simplices[d]| && j < |simplices[d - 1]| && diffMap[(i, j)] == DifferentialOf(simplices[d][i])[simplices[d - 1][j]]
    {
      var upper, lower := simplices[d], simplices[d - 1];
      diffMap := map[];
      var i := 0;
      while i < |upper|
        invariant i <= |upper|
        invariant forall a: nat, b: nat :: (a, b) in diffMap <==> a < i && b < |lower| && lower[b] in DifferentialOf(upper[a])
        invariant forall a: nat, b: nat | (a, b) in diffMap ::
          a < |upper| && b < |lower| && diffMap[(a, b)] == DifferentialOf(upper[a])[lower[b]]
      {
        var chain := Differential(upper[i]);
        var coefs := chain.simplices;
        DifferentialKeys(upper[i]);
        var items := coefs.Keys;
        while items != {}
          invariant items <= coefs.Keys
          invariant forall a: nat, b: nat :: (a, b) in diffMap <==>
            || (a < i && b < |lower| && lower[b] in DifferentialOf(upper[a]))
            || (a == i && b < |lower| && lower[b] in coefs && lower[b] !in items)
          invariant forall a: nat, b: nat | (a, b) in diffMap ::
            a < |upper| && b < |lower| && diffMap[(a, b)] == DifferentialOf(upper[a])[lower[b]]
          decreases |items|
        {
          var item :| item in items;
          diffMap := MarkFace(diffMap, lower, i, item, coefs[item]);
          items := items - {item};
        }
        i := i + 1;
      }
    }
  }

  /** The innermost loop of `getDifferentialMap`: (i, j) is set to the
      coefficient c for every position j of `lower` that holds the face. */
  method MarkFace(diffMap: map<(nat, nat), int>, lower: seq<CSimplex>, i: nat, face: CSimplex, c: int)
    returns (r: map<(nat, nat), int>)
    requires SimplexWf(face) && forall k | 0 <= k < |lower| :: SimplexWf(lower[k])
    ensures forall a: nat, b: nat :: (a, b) in r <==> (a, b) in diffMap || (a == i && b < |lower| && lower[b] == face)
    ensures forall a: nat, b: nat | (a, b) in r ::
      r[(a, b)] == if a == i && b < |lower| && lower[b] == face then c else diffMap[(a, b)]
  {
    r := diffMap;
    var j := 0;
    while j < |lower|
      invariant j <= |lower|
      invariant forall a: nat, b: nat :: (a, b) in r <==> (a, b) in diffMap || (a == i && b < j && lower[b] == face)
      invariant forall a: nat, b: nat | (a, b) in r ::
        r[(a, b)] == if a == i && b < j && lower[b] == face then c else diffMap[(a, b)]
    {
      EqIsEquality(face, lower[j]);
      if Eq(face, lower[j]) {
        r := r[(i, j) := c];
      }
      j := j + 1;
    }
  }
}
