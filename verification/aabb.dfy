/**
  The axis-aligned bounding box (`AABB`): a `min` and a `max` corner.

  The constructor, the derived centre and extents, the 2^D corners and the
  2^D partitions are written the way the library computes them (through
  `__points` and the local, centre-relative corner points), and the lemmas
  below give each of them its closed form: corner j takes `max` on axis b
  exactly when bit b of j is set, and partition j is the lower or upper
  half of every axis by the same rule.
 */
module Boxes {
  import opened Outcomes
  import opened Bits
  import opened Vectors

  datatype Aabb = Aabb(min: Vector, max: Vector)

  /**
    Every box the library builds comes from the constructor, which computes
    `min` and `max` with `minus` and `plus` from the same two vectors: they
    have one length, and that length is at least 1, since `mapToVector`
    never returns an empty vector (see `FromCentre`).
   */
  type Box = b: Aabb | |b.min| == |b.max| && |b.min| >= 1 witness Aabb([0.0], [0.0])

  /** `dimensionsCount`: the length of `min`, which is also that of `max`. */
  function Dim(b: Box): (r: nat)
    ensures r >= 1 && r == |b.max|
  {
    |b.min|
  }

  /** min <= max on every axis. */
  predicate Ordered(b: Box) {
    forall i :: 0 <= i < Dim(b) ==> b.min[i] <= b.max[i]
  }

  /**
    `new AABB(position, extents)`: min and max are position -/+ extents/2,
    over the longer input; two empty inputs give a one-axis box at 0.
   */
  function FromCentre(position: Vector, extents: Vector): (b: Box)
    ensures Dim(b) == Max(Max(|position|, |extents|), 1)
    ensures forall i :: 0 <= i < Dim(b) ==>
              && b.min[i] == Component(position, i) - Component(extents, i) / 2.0
              && b.max[i] == Component(position, i) + Component(extents, i) / 2.0
  {
    var half := Scale(extents, 0.5);
    Aabb(Minus(position, half), Plus(position, half))
  }

  /** `extents`: max - min. */
  function Extents(b: Box): (r: Vector)
    ensures |r| == Dim(b)
    ensures forall i :: 0 <= i < Dim(b) ==> r[i] == b.max[i] - b.min[i]
  {
    Minus(b.max, b.min)
  }

  /** `halfExtents`. */
  function HalfExtents(b: Box): (r: Vector)
    ensures |r| == Dim(b)
    ensures forall i :: 0 <= i < Dim(b) ==> r[i] == (b.max[i] - b.min[i]) / 2.0
  {
    Scale(Extents(b), 0.5)
  }

  /** `position` (getter): min + halfExtents, the midpoint of every axis. */
  function Position(b: Box): (r: Vector)
    ensures |r| == Dim(b)
    ensures forall i :: 0 <= i < Dim(b) ==> r[i] == (b.min[i] + b.max[i]) / 2.0
  {
    Plus(b.min, HalfExtents(b))
  }

  /** Midpoint of axis i. */
  function Mid(b: Box, i: nat): real
    requires i < Dim(b)
  {
    (b.min[i] + b.max[i]) / 2.0
  }

  // ---------------------------------------------------------------------
  // Corners and partitions

  /**
    `__points(start, d, ext)`: the corners reachable from `start` by adding
    `ext` on any subset of the axes 0 .. d-1; the first half of the result
    leaves axis d-1 alone and the second half moves it.
   */
  function CornerWalk(start: Vector, d: nat, ext: Vector): (r: seq<Vector>)
    requires 1 <= d <= |start| && d <= |ext|
    ensures |r| == Pow2(d) && r[0] == start
    decreases d
  {
    var next := MoveAxis(start, d - 1, ext);
    if d == 1 then [start, next]
    else CornerWalk(start, d - 1, ext) + CornerWalk(next, d - 1, ext)
  }

  /** The mapToVector step of `__points`: add `ext[a]` on axis a only. */
  function MoveAxis(start: Vector, a: nat, ext: Vector): (r: Vector)
    requires a < |start| && a < |ext|
    ensures |r| == |start|
    ensures forall i :: 0 <= i < |start| ==> r[i] == if i == a then start[i] + ext[a] else start[i]
  {
    MapToVector(start, (v, i) => if i == a then v + ext[a] else v)
  }

  /** Closed form of element j of `CornerWalk(start, d, ext)`. */
  function Shifted(start: Vector, ext: Vector, d: nat, j: nat): (r: Vector)
    requires d <= |ext|
  {
    seq(|start|, i requires 0 <= i < |start| =>
      if i < d && Bit(j, i) then start[i] + ext[i] else start[i])
  }

  /** Corner j: `max` on the axes whose bit is set in j, `min` elsewhere. */
  function Corner(b: Box, j: nat): (r: Vector)
  {
    seq(Dim(b), i requires 0 <= i < Dim(b) => if Bit(j, i) then b.max[i] else b.min[i])
  }

  /** `points`: the 2^D corners, walked from `min` by the extents. */
  function Points(b: Box): (r: seq<Vector>)
    ensures |r| == Pow2(Dim(b))
  {
    CornerWalkSpec(b.min, Dim(b), Extents(b));
    CornerWalk(b.min, Dim(b), Extents(b))
  }

  /** `localMin`: minus half the extents, the min corner relative to the centre. */
  function LocalMin(b: Box): (r: Vector)
    ensures |r| == Dim(b)
    ensures forall i :: 0 <= i < Dim(b) ==> r[i] == b.min[i] - Mid(b, i)
  {
    MapToVector(Extents(b), (v, _) => -(v / 2.0))
  }

  /** `localPoints`: the corners walked from `localMin`, relative to the centre. */
  function LocalPoints(b: Box): (r: seq<Vector>)
    ensures |r| == Pow2(Dim(b))
  {
    CornerWalk(LocalMin(b), Dim(b), Extents(b))
  }

  /** Walk element j from `localMin` is corner j minus the centre. */
  lemma LocalCorner(b: Box, j: nat)
    requires j < Pow2(Dim(b))
    ensures CornerWalk(LocalMin(b), Dim(b), Extents(b))[j] == Minus(Corner(b, j), Position(b))
  {
    var d := Dim(b);
    CornerWalkSpec(LocalMin(b), d, Extents(b));
    var w := CornerWalk(LocalMin(b), d, Extents(b))[j];
    var m := Minus(Corner(b, j), Position(b));
    assert w == Shifted(LocalMin(b), Extents(b), d, j);
    forall i | 0 <= i < d
      ensures w[i] == m[i]
    {
    }
  }

  /** `localPoints` holds the corners minus the centre, in the order of `points`. */
  lemma LocalPointsAreOffsets(b: Box)
    ensures forall j :: 0 <= j < Pow2(Dim(b)) ==> LocalPoints(b)[j] == Minus(Corner(b, j), Position(b))
  {
    forall j | 0 <= j < Pow2(Dim(b))
      ensures LocalPoints(b)[j] == Minus(Corner(b, j), Position(b))
    {
      LocalCorner(b, j);
    }
  }

  /**
    `partitions`: for every local corner, a box of half the extents centred
    halfway between the centre and that corner.
   */
  function Partitions(b: Box): (r: seq<Box>)
    ensures |r| == Pow2(Dim(b))
  {
    var lp := LocalPoints(b);
    var centre := Position(b);
    var half := HalfExtents(b);
    seq(|lp|, j requires 0 <= j < |lp| => FromCentre(Plus(Scale(lp[j], 0.5), centre), half))
  }

  /**
    `partitionsCount` as written: `Math.pow(dimensionsCount, 2)`, the square
    of the dimension count rather than the 2^D partitions there are. The two
    agree only in two and in four dimensions.
   */
  function PartitionsCount(b: Box): (r: nat)
    ensures r == |Partitions(b)| <==> Dim(b) == 2 || Dim(b) == 4
  {
    SquareMeetsPow2(Dim(b));
    Dim(b) * Dim(b)
  }

  /** d * d equals 2^d only for d = 2 and d = 4 (among d >= 1). */
  lemma SquareMeetsPow2(d: nat)
    requires d >= 1
    ensures d * d == Pow2(d) <==> d == 2 || d == 4
  {
    assert Pow2(1) == 2 && Pow2(2) == 4 && Pow2(3) == 8 && Pow2(4) == 16;
    if d >= 5 {
      SquareBelowPow2(d);
    }
  }

  /** From d = 5 on, 2^d outgrows d * d. */
  lemma {:induction false} SquareBelowPow2(d: nat)
    requires d >= 5
    ensures d * d < Pow2(d)
    decreases d
  {
    if d == 5 {
      assert Pow2(5) == 32;
    } else {
      SquareBelowPow2(d - 1);
      var e := d - 1;
      assert d * d == e * e + 2 * e + 1;
      assert 2 * e + 1 < e * e by {
        assert e * e >= 5 * e;
      }
      assert Pow2(d) == 2 * Pow2(e);
    }
  }

  /** The partition count `partitions` actually produces, 2^D. */
  function PartitionCount(b: Box): (r: nat)
    ensures r == |Partitions(b)|
  {
    Pow2(Dim(b))
  }

  /** `partition(i)`: a fresh box rebuilt from partition i's centre and extents. */
  function Partition(b: Box, i: nat): (r: Box)
    requires i < PartitionCount(b)
    ensures Dim(r) == Dim(b)
    ensures r == Half(b, i)
  {
    var p := Partitions(b)[i];
    PartitionsAreHalves(b);
    RebuildFromCentre(p);
    FromCentre(Position(p), Extents(p))
  }

  /** The 2^D halves in index order. */
  function Halves(b: Box): (r: seq<Box>)
    ensures |r| == Pow2(Dim(b))
    ensures forall j :: 0 <= j < |r| ==> r[j] == Half(b, j)
  {
    seq(Pow2(Dim(b)), j requires 0 <= j < Pow2(Dim(b)) => Half(b, j))
  }

  /** Partition j: the lower half of axis i when bit i of j is clear, else the upper. */
  function Half(b: Box, j: nat): (r: Box)
  {
    Aabb(seq(Dim(b), i requires 0 <= i < Dim(b) => if Bit(j, i) then Mid(b, i) else b.min[i]),
         seq(Dim(b), i requires 0 <= i < Dim(b) => if Bit(j, i) then b.max[i] else Mid(b, i)))
  }

  // ---------------------------------------------------------------------
  // Containment and collision

  /** A point of the box's dimension lying within min..max on every axis. */
  predicate Inside(b: Box, p: Vector) {
    |p| == Dim(b) && forall i :: 0 <= i < |p| ==> b.min[i] <= p[i] <= b.max[i]
  }

  /** `containsPoint`: throws on a point of another dimension. */
  function ContainsPoint(b: Box, p: Vector): (r: Result<bool>)
    ensures r.Failure? <==> |p| != Dim(b)
    ensures r.Failure? ==> r.error == DimensionMismatch
    ensures r.Success? ==> (r.value <==> forall i :: 0 <= i < |p| ==> b.min[i] <= p[i] <= b.max[i])
  {
    if |p| != Dim(b) then Failure(DimensionMismatch) else Success(Inside(b, p))
  }

  /** `other` has this box's dimension and both its min and max lie inside. */
  predicate Encloses(b: Box, other: Box) {
    Dim(b) == Dim(other) && Inside(b, other.min) && Inside(b, other.max)
  }

  /** `containsAABB`: throws on a box of another dimension. */
  function ContainsAabb(b: Box, other: Box): (r: Result<bool>)
    ensures r.Failure? <==> Dim(b) != Dim(other)
    ensures r.Failure? ==> r.error == DimensionMismatch
    ensures r.Success? ==> (r.value <==> ContainsPoint(b, other.min) == Success(true) && ContainsPoint(b, other.max) == Success(true))
  {
    if Dim(b) != Dim(other) then Failure(DimensionMismatch) else Success(Encloses(b, other))
  }

  /** Some corner of `other`, as `points` lists them, lies inside b. */
  predicate Collides(b: Box, other: Box) {
    && Dim(b) == Dim(other)
    && exists j :: 0 <= j < |Points(other)| && Inside(b, Points(other)[j])
  }

  /**
    `collideAABB`: `other.points.some(p => this.containsPoint(p))`. The
    first corner already throws when the dimensions differ.
   */
  function CollideAabb(b: Box, other: Box): (r: Result<bool>)
    ensures r.Failure? <==> Dim(b) != Dim(other)
    ensures r.Success? ==> (r.value <==> exists j :: 0 <= j < Pow2(Dim(other)) && Inside(b, Corner(other, j)))
  {
    CollidesViaCorners(b, other);
    if Dim(b) != Dim(other) then Failure(DimensionMismatch) else Success(Collides(b, other))
  }

  // ---------------------------------------------------------------------
  // Properties of the geometry

  /** The constructor's centre and extents read back, zero-extended to its dimension. */
  lemma {:induction false} CentreRoundTrip(position: Vector, extents: Vector)
    ensures var b := FromCentre(position, extents);
            && Position(b) == Pad(position, Dim(b))
            && Extents(b) == Pad(extents, Dim(b))
  {
    var b := FromCentre(position, extents);
    var n := Dim(b);
    var pp := Pad(position, n);
    var pe := Pad(extents, n);
    forall i | 0 <= i < n
      ensures Position(b)[i] == pp[i] && Extents(b)[i] == pe[i]
    {
      if i < |position| {
        assert pp[i] == pp[..|position|][i];
      }
      if i < |extents| {
        assert pe[i] == pe[..|extents|][i];
      }
    }
  }

  /**
    With non-empty centre and extents of one length, the constructor returns
    both exactly; two empty vectors give the one-axis box at 0.
   */
  lemma CentreRoundTripSameLength(position: Vector, extents: Vector)
    requires |position| == |extents|
    ensures position != [] ==> Position(FromCentre(position, extents)) == position
    ensures position != [] ==> Extents(FromCentre(position, extents)) == extents
    ensures position == [] ==> FromCentre(position, extents) == Aabb([0.0], [0.0])
  {
    CentreRoundTrip(position, extents);
  }

  /** Rebuilding a box from its own centre and extents gives the same box. */
  lemma {:induction false} RebuildFromCentre(b: Box)
    ensures FromCentre(Position(b), Extents(b)) == b
  {
    var r := FromCentre(Position(b), Extents(b));
    assert r.min == b.min;
    assert r.max == b.max;
  }

  /** Element j of the corner walk adds `ext` exactly on the set bits of j below d. */
  lemma {:induction false} CornerWalkSpec(start: Vector, d: nat, ext: Vector)
    requires 1 <= d <= |start| && d <= |ext|
    ensures |CornerWalk(start, d, ext)| == Pow2(d)
    ensures forall j :: 0 <= j < Pow2(d) ==> CornerWalk(start, d, ext)[j] == Shifted(start, ext, d, j)
    decreases d
  {
    var next := MoveAxis(start, d - 1, ext);
    var w := CornerWalk(start, d, ext);
    if d == 1 {
      CornerWalkOne(start, ext);
    } else {
      CornerWalkSpec(start, d - 1, ext);
      CornerWalkSpec(next, d - 1, ext);
      assert WalkIsShifted(start, d - 1, ext) && WalkIsShifted(next, d - 1, ext);
      CornerWalkJoin(start, d, ext);
      assert WalkIsShifted(start, d, ext);
    }
  }

  /** Every element of the walk over d axes is `start` shifted on the set bits of its index. */
  predicate WalkIsShifted(start: Vector, d: nat, ext: Vector)
    requires 1 <= d <= |start| && d <= |ext|
  {
    forall k :: 0 <= k < Pow2(d) ==> CornerWalk(start, d, ext)[k] == Shifted(start, ext, d, k)
  }

  /** The walk over d axes, from the two walks over d - 1 axes it joins. */
  lemma CornerWalkJoin(start: Vector, d: nat, ext: Vector)
    requires 2 <= d <= |start| && d <= |ext|
    requires WalkIsShifted(start, d - 1, ext)
    requires WalkIsShifted(MoveAxis(start, d - 1, ext), d - 1, ext)
    ensures WalkIsShifted(start, d, ext)
  {
    var h := Pow2(d - 1);
    var next := MoveAxis(start, d - 1, ext);
    var lo := CornerWalk(start, d - 1, ext);
    var hi := CornerWalk(next, d - 1, ext);
    var w := CornerWalk(start, d, ext);
    assert w == lo + hi;
    assert Pow2(d) == 2 * h;
    forall j | 0 <= j < Pow2(d)
      ensures w[j] == Shifted(start, ext, d, j)
    {
      if j < h {
        assert w[j] == lo[j] == Shifted(start, ext, d - 1, j);
        LowerHalfShift(start, ext, d, j);
      } else {
        var k := j - h;
        assert w[j] == hi[k] == Shifted(next, ext, d - 1, k);
        UpperHalfShift(start, ext, d, k);
      }
    }
  }

  /** Over one axis the walk is `start`, then `start` moved on axis 0. */
  lemma CornerWalkOne(start: Vector, ext: Vector)
    requires 1 <= |start| && 1 <= |ext|
    ensures CornerWalk(start, 1, ext) == [Shifted(start, ext, 1, 0), Shifted(start, ext, 1, 1)]
  {
    var next := MoveAxis(start, 0, ext);
    assert CornerWalk(start, 1, ext) == [start, next];
    NoBitOfZero(0);
    assert Shifted(start, ext, 1, 0) == start;
    assert Shifted(start, ext, 1, 1) == next;
  }

  /** Below 2^(d-1) the walk over d axes agrees with the walk over d-1. */
  lemma LowerHalfShift(start: Vector, ext: Vector, d: nat, j: nat)
    requires 2 <= d <= |start| && d <= |ext| && j < Pow2(d - 1)
    ensures Shifted(start, ext, d - 1, j) == Shifted(start, ext, d, j)
  {
    NoBitAboveWidth(j, d - 1, d - 1);
  }

  /** From 2^(d-1) on, the walk moves axis d-1 and then follows the low bits. */
  lemma UpperHalfShift(start: Vector, ext: Vector, d: nat, k: nat)
    requires 2 <= d <= |start| && d <= |ext| && k < Pow2(d - 1)
    ensures Shifted(MoveAxis(start, d - 1, ext), ext, d - 1, k) == Shifted(start, ext, d, k + Pow2(d - 1))
  {
    var j := k + Pow2(d - 1);
    TopBit(j, d - 1);
    var s := Shifted(start, ext, d, j);
    var t := Shifted(MoveAxis(start, d - 1, ext), ext, d - 1, k);
    forall i | 0 <= i < |start|
      ensures t[i] == s[i]
    {
      if i < d - 1 {
        LowBitsIgnoreHighAdd(k, d - 1, i);
      }
    }
  }

  /** `points` holds the 2^D corners in bit order, from `min` to `max`. */
  lemma {:induction false} PointsAreCorners(b: Box)
    ensures forall j :: 0 <= j < Pow2(Dim(b)) ==> Points(b)[j] == Corner(b, j)
    ensures Points(b)[0] == b.min
    ensures Points(b)[Pow2(Dim(b)) - 1] == b.max
  {
    var d := Dim(b);
    CornerWalkSpec(b.min, d, Extents(b));
    forall j | 0 <= j < Pow2(d)
      ensures Points(b)[j] == Corner(b, j)
    {
      ShiftedMinIsCorner(b, j);
    }
    ExtremeCorners(b);
  }

  /** Walking from `min` by the extents on the set bits of j reaches corner j. */
  lemma ShiftedMinIsCorner(b: Box, j: nat)
    ensures Shifted(b.min, Extents(b), Dim(b), j) == Corner(b, j)
  {
    var s := Shifted(b.min, Extents(b), Dim(b), j);
    forall i | 0 <= i < Dim(b)
      ensures s[i] == Corner(b, j)[i]
    {
    }
  }

  /** Corner 0 is `min` and the last corner, all bits set, is `max`. */
  lemma ExtremeCorners(b: Box)
    ensures Corner(b, 0) == b.min && Corner(b, Pow2(Dim(b)) - 1) == b.max
  {
    var d := Dim(b);
    var top := Pow2(d) - 1;
    forall i | 0 <= i < d
      ensures Corner(b, 0)[i] == b.min[i]
    {
      NoBitOfZero(i);
    }
    forall i | 0 <= i < d
      ensures Corner(b, top)[i] == b.max[i]
    {
      AllBitsOfTop(d, i);
    }
  }

  /** One axis of one partition, followed through the library's arithmetic. */
  lemma PartitionAxis(b: Box, j: nat, i: nat)
    requires j < Pow2(Dim(b)) && i < Dim(b)
    ensures Dim(Partitions(b)[j]) == Dim(b)
    ensures Partitions(b)[j].min[i] == Half(b, j).min[i]
    ensures Partitions(b)[j].max[i] == Half(b, j).max[i]
  {
    var d := Dim(b);
    var ext := Extents(b);
    var lm := LocalMin(b);
    CornerWalkSpec(lm, d, ext);
    var lp := LocalPoints(b)[j];
    assert lp == Shifted(lm, ext, d, j);
    assert lp[i] == if Bit(j, i) then lm[i] + ext[i] else lm[i];
    var c := Plus(Scale(lp, 0.5), Position(b));
    assert c[i] == lp[i] * 0.5 + Mid(b, i);
    var h := HalfExtents(b);
    assert Partitions(b)[j] == FromCentre(c, h);
  }

  /** Each half is half as wide as the box on every axis. */
  lemma HalfWidth(b: Box, j: nat, k: nat)
    requires k < Dim(b)
    ensures Dim(Half(b, j)) == Dim(b)
    ensures Half(b, j).max[k] - Half(b, j).min[k] == (b.max[k] - b.min[k]) / 2.0
  {
  }

  /** `partitions` holds the 2^D halves in bit order. */
  lemma {:induction false} PartitionsAreHalves(b: Box)
    ensures forall j :: 0 <= j < Pow2(Dim(b)) ==> Partitions(b)[j] == Half(b, j)
  {
    forall j | 0 <= j < Pow2(Dim(b))
      ensures Partitions(b)[j] == Half(b, j)
    {
      var p := Partitions(b)[j];
      var hj := Half(b, j);
      PartitionAxis(b, j, 0);
      forall i | 0 <= i < Dim(b)
        ensures p.min[i] == hj.min[i] && p.max[i] == hj.max[i]
      {
        PartitionAxis(b, j, i);
      }
      assert p.min == hj.min;
      assert p.max == hj.max;
    }
  }

  /** `partitions` is the sequence of halves. */
  lemma PartitionsEqualHalves(b: Box)
    ensures Partitions(b) == Halves(b)
  {
    PartitionsAreHalves(b);
  }

  /** `partition(i)` copies partition i: same min and same max. */
  lemma PartitionIsCopy(b: Box, i: nat)
    requires i < PartitionCount(b)
    ensures Partition(b, i) == Partitions(b)[i] == Half(b, i)
  {
    PartitionsAreHalves(b);
    RebuildFromCentre(Partitions(b)[i]);
  }

  /** Every `partition(j)` is the j-th half. */
  lemma PartitionsAreCopies(b: Box)
    ensures forall j :: 0 <= j < PartitionCount(b) ==> Partition(b, j) == Partitions(b)[j] == Half(b, j)
  {
    forall j | 0 <= j < PartitionCount(b)
      ensures Partition(b, j) == Partitions(b)[j] == Half(b, j)
    {
      PartitionIsCopy(b, j);
    }
  }

  /** Every partition has the parent's half extents and lies inside an ordered parent. */
  lemma {:induction false} PartitionShape(b: Box, i: nat)
    requires i < PartitionCount(b)
    ensures Extents(Partition(b, i)) == HalfExtents(b)
    ensures Ordered(b) ==> Ordered(Partition(b, i)) && Encloses(b, Partition(b, i))
  {
    PartitionIsCopy(b, i);
    var p := Half(b, i);
    forall k | 0 <= k < Dim(b)
      ensures Extents(p)[k] == HalfExtents(b)[k]
    {
    }
    if Ordered(b) {
      forall k | 0 <= k < Dim(b)
        ensures b.min[k] <= p.min[k] <= p.max[k] <= b.max[k]
      {
      }
    }
  }

  /**
    The partitions tile an ordered box: every point of the box lies in the
    partition whose bits record on which side of the midpoint it falls.
   */
  lemma {:induction false} PartitionsCover(b: Box, p: Vector)
    requires Inside(b, p)
    ensures exists j :: 0 <= j < PartitionCount(b) && Inside(Partition(b, j), p)
  {
    var d := Dim(b);
    var bits := seq(d, i requires 0 <= i < d => p[i] >= Mid(b, i));
    var j := Encode(bits);
    EncodeRoundTrip(bits);
    assert Inside(Half(b, j), p);
    assert Partition(b, j) == Half(b, j);
  }

  /** Two different partitions share only points on a midpoint plane. */
  lemma {:induction false} PartitionsMeetOnlyAtMidpoints(b: Box, j: nat, k: nat, p: Vector)
    requires j < PartitionCount(b) && k < PartitionCount(b) && j != k
    requires Inside(Partition(b, j), p) && Inside(Partition(b, k), p)
    ensures exists i :: 0 <= i < Dim(b) && p[i] == Mid(b, i)
  {
    HalvesMeetOnlyAtMidpoints(b, j, k, p);
  }

  /** Two different halves share only points on a midpoint plane. */
  lemma HalvesMeetOnlyAtMidpoints(b: Box, j: nat, k: nat, p: Vector)
    requires j < Pow2(Dim(b)) && k < Pow2(Dim(b)) && j != k
    requires Inside(Half(b, j), p) && Inside(Half(b, k), p)
    ensures exists i :: 0 <= i < Dim(b) && p[i] == Mid(b, i)
  {
    DistinctIndicesDifferInABit(j, k, Dim(b));
    var i: nat :| i < Dim(b) && Bit(j, i) != Bit(k, i);
    assert p[i] == Mid(b, i);
  }

  /** The square that `partitionsCount` computes is not the partition count for D = 1 or 3. */
  lemma PartitionsCountMismatch(b: Box)
    requires Dim(b) == 1 || Dim(b) == 3
    ensures PartitionsCount(b) != |Partitions(b)|
  {
    assert Pow2(1) == 2;
    assert Pow2(3) == 8;
  }

  /** containsAABB is reflexive exactly on ordered boxes. */
  lemma EnclosesReflexive(b: Box)
    ensures Encloses(b, b) <==> Ordered(b)
  {
  }

  /** containsAABB is transitive. */
  lemma EnclosesTransitive(a: Box, b: Box, c: Box)
    requires Encloses(a, b) && Encloses(b, c)
    ensures Encloses(a, c)
  {
  }

  /**
    Testing the two extreme corners suffices: an ordered box is enclosed
    exactly when every one of its points is inside.
   */
  lemma EnclosesAllPoints(a: Box, o: Box)
    requires Ordered(o) && Dim(a) == Dim(o)
    ensures Encloses(a, o) <==> forall p :: Inside(o, p) ==> Inside(a, p)
  {
    if !Encloses(a, o) {
      assert Inside(o, o.min) && Inside(o, o.max);
    }
  }

  /** collideAABB is corner containment, in the closed form of the corners. */
  lemma CollidesViaCorners(b: Box, other: Box)
    ensures Collides(b, other) <==>
              Dim(b) == Dim(other) && exists j :: 0 <= j < Pow2(Dim(other)) && Inside(b, Corner(other, j))
  {
    PointsAreCorners(other);
  }

  /** Containing a box implies colliding with it (its min corner is inside). */
  lemma EnclosesImpliesCollides(b: Box, other: Box)
    requires Encloses(b, other)
    ensures Collides(b, other)
  {
    PointsAreCorners(other);
    assert Inside(b, Points(other)[0]);
  }

  /** An ordered box collides with itself. */
  lemma SelfCollides(b: Box)
    requires Ordered(b)
    ensures Collides(b, b)
  {
    EnclosesImpliesCollides(b, b);
  }

  /**
    collideAABB is not symmetric: a box collides with a smaller box inside
    it, while the smaller box has none of the larger one's corners.
   */
  lemma CollisionIsAsymmetric()
    ensures var big := Aabb([-2.0, -2.0], [2.0, 2.0]);
            var small := Aabb([-1.0, -1.0], [1.0, 1.0]);
            Collides(big, small) && !Collides(small, big)
  {
    var big: Box := Aabb([-2.0, -2.0], [2.0, 2.0]);
    var small: Box := Aabb([-1.0, -1.0], [1.0, 1.0]);
    EnclosesImpliesCollides(big, small);
    CollidesViaCorners(small, big);
    forall j | 0 <= j < Pow2(2)
      ensures !Inside(small, Corner(big, j))
    {
      assert Corner(big, j)[0] == 2.0 || Corner(big, j)[0] == -2.0;
    }
  }

  /**
    Corner containment misses crossing boxes: a wide flat box and a tall thin
    one share the origin, yet neither holds a corner of the other.
   */
  lemma CrossingBoxesAreMissed()
    ensures var wide := Aabb([-2.0, -0.5], [2.0, 0.5]);
            var tall := Aabb([-0.5, -2.0], [0.5, 2.0]);
            && Inside(wide, [0.0, 0.0]) && Inside(tall, [0.0, 0.0])
            && !Collides(wide, tall) && !Collides(tall, wide)
  {
    var wide: Box := Aabb([-2.0, -0.5], [2.0, 0.5]);
    var tall: Box := Aabb([-0.5, -2.0], [0.5, 2.0]);
    CollidesViaCorners(wide, tall);
    CollidesViaCorners(tall, wide);
    forall j | 0 <= j < Pow2(2)
      ensures !Inside(wide, Corner(tall, j)) && !Inside(tall, Corner(wide, j))
    {
      assert Corner(tall, j)[1] == 2.0 || Corner(tall, j)[1] == -2.0;
      assert Corner(wide, j)[0] == 2.0 || Corner(wide, j)[0] == -2.0;
    }
  }
}
