/**
  The AABB object with its two lazily filled caches (`__pointsCache`,
  `__partitionsCache`) and the `position` setter that invalidates them.

  A cache is coherent when it is empty or holds what its getter would
  compute from the current min and max; moving the box must empty both.
 */
module BoxCache {
  import opened Outcomes
  import opened Bits
  import opened Vectors
  import opened Boxes

  datatype CachedAabb = CachedAabb(box: Box, pointsCache: Option<seq<Vector>>, partitionsCache: Option<seq<Box>>)

  /** Every filled cache agrees with the current box. */
  predicate Coherent(c: CachedAabb) {
    && (c.pointsCache.Some? ==> c.pointsCache.value == Points(c.box))
    && (c.partitionsCache.Some? ==> c.partitionsCache.value == Partitions(c.box))
  }

  /** `new AABB(position, extents)`: both caches start empty. */
  function New(position: Vector, extents: Vector): (c: CachedAabb)
    ensures Coherent(c)
    ensures c.pointsCache.None? && c.partitionsCache.None?
    ensures Dim(c.box) == Max(Max(|position|, |extents|), 1)
    ensures Position(c.box) == Pad(position, Dim(c.box)) && Extents(c.box) == Pad(extents, Dim(c.box))
    ensures |position| == |extents| >= 1 ==> Position(c.box) == position && Extents(c.box) == extents
  {
    CentreRoundTrip(position, extents);
    CachedAabb(FromCentre(position, extents), None, None)
  }

  /** `points` getter: computes the corners on first use and keeps them. */
  function GetPoints(c: CachedAabb): (r: (seq<Vector>, CachedAabb))
    ensures r.1.box == c.box && r.1.pointsCache.Some? && r.1.partitionsCache == c.partitionsCache
    ensures Coherent(c) ==> r.0 == Points(c.box) && Coherent(r.1)
  {
    if c.pointsCache.None? then
      var pts := Points(c.box);
      (pts, c.(pointsCache := Some(pts)))
    else
      (c.pointsCache.value, c)
  }

  /** `partitions` getter: computes the partitions on first use and keeps them. */
  function GetPartitions(c: CachedAabb): (r: (seq<Box>, CachedAabb))
    ensures r.1.box == c.box && r.1.partitionsCache.Some? && r.1.pointsCache == c.pointsCache
    ensures Coherent(c) ==> r.0 == Partitions(c.box) && Coherent(r.1)
  {
    if c.partitionsCache.None? then
      var parts := Partitions(c.box);
      (parts, c.(partitionsCache := Some(parts)))
    else
      (c.partitionsCache.value, c)
  }

  /**
    `position` setter: rebuilds min and max around the new centre from the
    current extents and empties both caches.
   */
  function SetPosition(c: CachedAabb, position: Vector): (r: CachedAabb)
    ensures Coherent(r)
    ensures r.pointsCache.None? && r.partitionsCache.None?
    ensures Dim(r.box) == Max(|position|, Dim(c.box))
    ensures Position(r.box) == Pad(position, Dim(r.box)) && Extents(r.box) == Pad(Extents(c.box), Dim(r.box))
    ensures |position| == Dim(c.box) ==> Position(r.box) == position && Extents(r.box) == Extents(c.box)
  {
    var ext := Extents(c.box);
    CentreRoundTrip(position, ext);
    CachedAabb(FromCentre(position, ext), None, None)
  }

  /**
    Emptying only the points cache would not do: a unit box moved by 1 with
    its partitions kept answers `partitions` with the old halves.
   */
  lemma PartialInvalidationIsStale()
    ensures var before := New([0.0], [2.0]);
            var filled := GetPartitions(before).1;
            var moved := SetPosition(filled, [1.0]);
            !Coherent(moved.(partitionsCache := filled.partitionsCache))
  {
    var before := New([0.0], [2.0]);
    var filled := GetPartitions(before).1;
    var moved := SetPosition(filled, [1.0]);
    assert before.box.min == [-1.0];
    assert moved.box.min == [0.0];
    PartitionsAreHalves(before.box);
    PartitionsAreHalves(moved.box);
    NoBitOfZero(0);
    assert Partitions(before.box)[0].min[0] == -1.0;
    assert Partitions(moved.box)[0].min[0] == 0.0;
  }
}
