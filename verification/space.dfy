/**
  A `Space`: the ordered axis labels and the world size per axis. It
  yields the origin, the extents and the root box of a split tree.
 */
module Spaces {
  import opened Vectors
  import Boxes

  datatype Space = Space(axes: seq<string>, size: real)

  /** `new Space(dimensions)`: the labels in order and a size of 1. */
  function New(axes: seq<string>): (s: Space)
    ensures s.axes == axes && s.size == 1.0
  {
    Space(axes, 1.0)
  }

  /** `originVector`: one zero per axis label. */
  function OriginVector(s: Space): (v: Vector)
    ensures |v| == |s.axes|
    ensures forall i :: 0 <= i < |v| ==> v[i] == 0.0
  {
    seq(|s.axes|, _ => 0.0)
  }

  /**
    `extents`: the size, once per axis. It maps the origin vector with
    `mapToVector`, so a space without labels gets the one-component `[0]`.
   */
  function Extents(s: Space): (v: Vector)
    ensures |v| == Max(|s.axes|, 1)
    ensures forall i :: 0 <= i < |s.axes| ==> v[i] == s.size
    ensures s.axes == [] ==> v == [0.0]
  {
    MapToVector(OriginVector(s), (_, _) => s.size)
  }

  /**
    `aABB`: the box of the given size centred on the origin; a space without
    labels gets the one-axis box at 0.
   */
  function RootBox(s: Space): (b: Boxes.Box)
    ensures Boxes.Dim(b) == Max(|s.axes|, 1)
    ensures forall i :: 0 <= i < |s.axes| ==> b.min[i] == -s.size / 2.0 && b.max[i] == s.size / 2.0
    ensures s.axes != [] ==> Boxes.Position(b) == OriginVector(s)
    ensures forall i :: 0 <= i < Boxes.Dim(b) ==> Boxes.Position(b)[i] == 0.0
    ensures Boxes.Extents(b) == Extents(s)
  {
    Boxes.CentreRoundTrip(OriginVector(s), Extents(s));
    Boxes.FromCentre(OriginVector(s), Extents(s))
  }

  /** A space without labels has the one-axis root box at 0, whatever its size. */
  lemma RootBoxWithoutLabels(s: Space)
    requires s.axes == []
    ensures RootBox(s) == Boxes.Aabb([0.0], [0.0])
  {
    var b := RootBox(s);
    assert b.min == [0.0] && b.max == [0.0];
  }

  /** A space of non-negative size has an ordered root box. */
  lemma RootBoxOrdered(s: Space)
    requires s.size >= 0.0
    ensures Boxes.Ordered(RootBox(s))
  {
  }
}
