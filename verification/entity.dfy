/**
  An entity of the split tree: a centre and extents, a colour, a
  `ghosted` flag, and a link to the node that lists it. The link is the
  node's path from the root; `move` with a link is `moveEntity` in
  `TreeIndex`.
 */
module Entities {
  import opened Outcomes
  import opened Vectors
  import opened Boxes
  import SplitTree

  datatype Entity = Entity(
    position: Vector,
    extents: Vector,
    color: seq<real>,
    ghosted: bool,
    parent: Option<SplitTree.Path>)

  /** `new Entity({position, extents, color})`: not yet in any tree, not ghosted. */
  function New(position: Vector, extents: Vector, color: seq<real>): (e: Entity)
    ensures e.position == position && e.extents == extents && e.color == color
    ensures !e.ghosted && e.parent.None?
  {
    Entity(position, extents, color, false, None)
  }

  /** The `aABB` getter: a fresh box around the position with the entity's extents. */
  function EntityBox(e: Entity): (b: Box)
    ensures Dim(b) == Max(Max(|e.position|, |e.extents|), 1)
  {
    FromCentre(e.position, e.extents)
  }

  /**
    The entity's box reads back its position and extents, zero-extended to
    the box's dimension; without padding when both have the same non-zero
    length.
   */
  lemma EntityBoxReadsBack(e: Entity)
    ensures var b := EntityBox(e);
            && Position(b) == Pad(e.position, Dim(b)) && Extents(b) == Pad(e.extents, Dim(b))
            && (|e.position| == |e.extents| >= 1 ==> Position(b) == e.position && Extents(b) == e.extents)
  {
    CentreRoundTrip(e.position, e.extents);
  }

  /** Some extent is not zero. */
  predicate HasSize(extents: Vector) {
    exists i :: 0 <= i < |extents| && extents[i] != 0.0
  }

  /**
    A box built around any centre has min != max exactly when some extent
    is not zero; only such boxes ever stop descending in `insert`.
   */
  lemma SolidIffSized(position: Vector, extents: Vector)
    ensures SplitTree.Solid(FromCentre(position, extents)) <==> HasSize(extents)
  {
    var b := FromCentre(position, extents);
    if HasSize(extents) {
      var i :| 0 <= i < |extents| && extents[i] != 0.0;
      assert b.min[i] != b.max[i];
    }
    if SplitTree.Solid(b) {
      var i :| 0 <= i < Dim(b) && b.min[i] != b.max[i];
      assert Component(extents, i) != 0.0;
    }
  }

  /** `move` of an entity no node lists: the position changes and the answer is false. */
  function MoveUnlinked(e: Entity, newPosition: Vector): (r: (Entity, bool))
    requires e.parent.None?
    ensures !r.1 && r.0.position == newPosition
    ensures r.0.extents == e.extents && r.0.color == e.color && r.0.ghosted == e.ghosted && r.0.parent.None?
  {
    (e.(position := newPosition), false)
  }

  /**
    The box `moveEntity` checks: `new AABB(newPosition, entity.aABB.extents)`,
    built from the extents of the entity's current box rather than from
    its `extents` field.
   */
  function MovedBox(e: Entity, newPosition: Vector): (b: Box)
    ensures Dim(b) == Max(|newPosition|, Dim(EntityBox(e)))
  {
    FromCentre(newPosition, Extents(EntityBox(e)))
  }

  /**
    The box checked is the box the moved entity has, unless the position is
    longer than both the extents and the new position: then the current
    box has more axes than the moved entity's.
   */
  lemma MovedBoxIsNewBox(e: Entity, newPosition: Vector)
    ensures |e.position| <= Max(Max(|newPosition|, |e.extents|), 1) <==>
            MovedBox(e, newPosition) == EntityBox(e.(position := newPosition))
  {
    CentreRoundTrip(e.position, e.extents);
    var a := MovedBox(e, newPosition);
    var b := EntityBox(e.(position := newPosition));
    if |e.position| <= Max(Max(|newPosition|, |e.extents|), 1) {
      assert Dim(a) == Dim(b);
      forall i | 0 <= i < Dim(a)
        ensures a.min[i] == b.min[i] && a.max[i] == b.max[i]
      {
        assert Component(Extents(EntityBox(e)), i) == Component(e.extents, i);
      }
    }
  }

  /** Moving keeps the extents, so an entity with size keeps it. */
  lemma MoveKeepsSize(e: Entity, newPosition: Vector)
    ensures SplitTree.Solid(EntityBox(e.(position := newPosition))) <==> SplitTree.Solid(EntityBox(e))
  {
    SolidIffSized(e.position, e.extents);
    SolidIffSized(newPosition, e.extents);
  }
}
