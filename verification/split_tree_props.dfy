/**
  What `insert`, `detachEntity` and `containingNode` promise about a split
  tree: where an entity ends up, that no other list changes, that every
  child stays over its partition of the parent's box, that emptied nodes
  are pruned, and that `containingNode` finds the node `insert` chose.
 */
module SplitTreeProps {
  import opened Outcomes
  import opened Bits
  import opened Vectors
  import opened Boxes
  import opened SplitTree

  // ---------------------------------------------------------------------
  // Looking up paths after an update

  /** Nodes that share their child array agree below the root. */
  lemma SameChildsBelow(n: Node, m: Node, q: Path)
    requires n.childs == m.childs && q != []
    ensures Lookup(n, q) == Lookup(m, q)
  {
  }

  /** Setting slot i leaves the paths through the other slots alone. */
  lemma LookupOtherSlot(n: Node, i: nat, c: Node, q: Path)
    requires q != [] && q[0] != i
    ensures Lookup(SetChild(n, i, c), q) == Lookup(n, q)
  {
  }

  /** Cleaning slot i leaves the paths through the other slots alone. */
  lemma LookupAfterClean(n: Node, i: nat, q: Path)
    requires HasChild(n, i) && q != []
    ensures q[0] != i ==> Lookup(Clean(n, i), q) == Lookup(n, q)
    ensures q[0] == i && Occupied(Child(n, i).value) ==> Lookup(Clean(n, i), q) == Lookup(n, q)
    ensures q[0] == i && !Occupied(Child(n, i).value) ==> Lookup(Clean(n, i), q).None?
  {
  }

  /** A node with no entity and no child has nothing below it. */
  lemma NothingBelowEmpty(m: Node, q: Path)
    requires !Occupied(m)
    ensures EntitiesAt(m, q) == []
    ensures q != [] ==> Lookup(m, q).None?
  {
    if q != [] {
      assert !HasChild(m, q[0]);
    }
  }

  /** The path to a child's node, seen from the parent. */
  lemma SplitPath(n: Node, q: Path)
    requires q != []
    ensures q == [q[0]] + q[1..]
    ensures HasChild(n, q[0]) ==> Lookup(n, q) == Lookup(Child(n, q[0]).value, q[1..])
    ensures !HasChild(n, q[0]) ==> Lookup(n, q).None? && EntitiesAt(n, q) == []
  {
  }

  // ---------------------------------------------------------------------
  // One step of an update, through one slot

  /**
    m is n with id appended to the list at p: that node exists, no other
    list changes, and every node of n is still in m over the same box.
   */
  ghost predicate Appended(n: Node, m: Node, p: Path, id: EntityId) {
    && Lookup(m, p).Some?
    && EntitiesAt(m, p) == EntitiesAt(n, p) + [id]
    && (forall q :: q != p ==> EntitiesAt(m, q) == EntitiesAt(n, q))
    && (forall q :: Lookup(n, q).Some? ==>
          Lookup(m, q).Some? && Lookup(m, q).value.box == Lookup(n, q).value.box)
  }

  /**
    m is n with one occurrence of id removed from the list at p: no other
    list changes, and m's nodes are nodes of n over the same box.
   */
  ghost predicate Removed(n: Node, m: Node, p: Path, id: EntityId) {
    && EntitiesAt(m, p) == Remove(EntitiesAt(n, p), id)
    && (forall q :: q != p ==> EntitiesAt(m, q) == EntitiesAt(n, q))
    && (forall q :: Lookup(m, q).Some? ==>
          Lookup(n, q).Some? && Lookup(m, q).value.box == Lookup(n, q).value.box)
  }

  /** Pushing onto a node's own list appends at the empty path. */
  lemma AppendedByPush(n: Node, id: EntityId)
    ensures Appended(n, Push(n, id), [], id)
  {
    forall q | q != []
      ensures Lookup(Push(n, id), q) == Lookup(n, q)
    {
      SameChildsBelow(Push(n, id), n, q);
    }
  }

  /** An append inside the child in slot i is an append below the parent. */
  lemma AppendedThroughChild(n: Node, i: nat, c: Node, p: Path, id: EntityId)
    requires HasChild(n, i) && Appended(Child(n, i).value, c, p, id)
    ensures Appended(n, SetChild(n, i, c), [i] + p, id)
  {
    var m := SetChild(n, i, c);
    SplitPath(n, [i] + p);
    SplitPath(m, [i] + p);
    forall q | q != []
      ensures q != [i] + p ==> EntitiesAt(m, q) == EntitiesAt(n, q)
      ensures Lookup(n, q).Some? ==>
                Lookup(m, q).Some? && Lookup(m, q).value.box == Lookup(n, q).value.box
    {
      SplitPath(n, q);
      SplitPath(m, q);
      if q[0] == i {
        var r := q[1..];
        assert q == [i] + r;
        assert EntitiesAt(m, q) == EntitiesAt(c, r);
        assert EntitiesAt(n, q) == EntitiesAt(Child(n, i).value, r);
      }
    }
  }

  /** A chain hung into an empty slot i appends below the parent. */
  lemma AppendedIntoEmptySlot(n: Node, i: nat, c: Node, p: Path, id: EntityId)
    requires !HasChild(n, i) && Appended(Empty(c.box), c, p, id)
    ensures Appended(n, SetChild(n, i, c), [i] + p, id)
  {
    var m := SetChild(n, i, c);
    SplitPath(n, [i] + p);
    SplitPath(m, [i] + p);
    forall q | q != []
      ensures q != [i] + p ==> EntitiesAt(m, q) == EntitiesAt(n, q)
      ensures Lookup(n, q).Some? ==>
                Lookup(m, q).Some? && Lookup(m, q).value.box == Lookup(n, q).value.box
    {
      SplitPath(n, q);
      SplitPath(m, q);
      if q[0] == i {
        var r := q[1..];
        assert q == [i] + r;
        NothingBelowEmpty(Empty(c.box), r);
        assert EntitiesAt(m, q) == EntitiesAt(c, r);
      }
    }
  }

  /** Paths below a parent after storing c in slot i and cleaning it. */
  lemma LookupAfterCleanSetChild(n: Node, i: nat, c: Node, q: Path)
    requires HasChild(n, i) && q != []
    ensures q[0] != i ==> Lookup(Clean(SetChild(n, i, c), i), q) == Lookup(n, q)
    ensures q[0] == i ==> Lookup(n, q) == Lookup(Child(n, i).value, q[1..])
    ensures q[0] == i && Occupied(c) ==> Lookup(Clean(SetChild(n, i, c), i), q) == Lookup(c, q[1..])
    ensures q[0] == i && !Occupied(c) ==> Lookup(Clean(SetChild(n, i, c), i), q).None?
  {
    var s := SetChild(n, i, c);
    SplitPath(n, q);
    SplitPath(s, q);
    LookupAfterClean(s, i, q);
  }

  /** One path below a parent after a removal in slot i and `clean`. */
  lemma RemovedBelowSlot(n: Node, i: nat, c: Node, p: Path, id: EntityId, q: Path)
    requires HasChild(n, i) && Removed(Child(n, i).value, c, p, id) && q != []
    ensures var m := Clean(SetChild(n, i, c), i);
            && (q != [i] + p ==> EntitiesAt(m, q) == EntitiesAt(n, q))
            && (q == [i] + p ==> EntitiesAt(m, q) == Remove(EntitiesAt(n, q), id))
  {
    var m := Clean(SetChild(n, i, c), i);
    LookupAfterCleanSetChild(n, i, c, q);
    if q[0] == i {
      var r := q[1..];
      assert q == [i] + r;
      assert EntitiesAt(n, q) == EntitiesAt(Child(n, i).value, r);
      if Occupied(c) {
        assert EntitiesAt(m, q) == EntitiesAt(c, r);
      } else {
        NothingBelowEmpty(c, r);
      }
    }
  }

  /** The lists below a parent after a removal in slot i and `clean`. */
  lemma RemovedListsThroughChild(n: Node, i: nat, c: Node, p: Path, id: EntityId)
    requires HasChild(n, i) && Removed(Child(n, i).value, c, p, id)
    ensures var m := Clean(SetChild(n, i, c), i);
            && EntitiesAt(m, [i] + p) == Remove(EntitiesAt(n, [i] + p), id)
            && forall q :: q != [i] + p ==> EntitiesAt(m, q) == EntitiesAt(n, q)
  {
    RemovedBelowSlot(n, i, c, p, id, [i] + p);
    forall q | q != [i] + p && q != []
      ensures EntitiesAt(Clean(SetChild(n, i, c), i), q) == EntitiesAt(n, q)
    {
      RemovedBelowSlot(n, i, c, p, id, q);
    }
  }

  /** The nodes below a parent after a removal in slot i and `clean` were there before. */
  lemma RemovedNodesThroughChild(n: Node, i: nat, c: Node)
    requires HasChild(n, i)
    requires forall q :: Lookup(c, q).Some? ==>
               Lookup(Child(n, i).value, q).Some? && Lookup(c, q).value.box == Lookup(Child(n, i).value, q).value.box
    ensures var m := Clean(SetChild(n, i, c), i);
            forall q :: Lookup(m, q).Some? ==>
              Lookup(n, q).Some? && Lookup(m, q).value.box == Lookup(n, q).value.box
  {
    var m := Clean(SetChild(n, i, c), i);
    forall q | Lookup(m, q).Some? && q != []
      ensures Lookup(n, q).Some? && Lookup(m, q).value.box == Lookup(n, q).value.box
    {
      LookupAfterCleanSetChild(n, i, c, q);
      assert q == [q[0]] + q[1..];
    }
  }

  /** A removal inside the child in slot i, followed by `clean`, is a removal below the parent. */
  lemma RemovedThroughChild(n: Node, i: nat, c: Node, p: Path, id: EntityId)
    requires HasChild(n, i) && Removed(Child(n, i).value, c, p, id)
    ensures Removed(n, Clean(SetChild(n, i, c), i), [i] + p, id)
  {
    RemovedListsThroughChild(n, i, c, p, id);
    RemovedNodesThroughChild(n, i, c);
  }

  /** A node over the same box with the same children is as shaped and pruned. */
  lemma SameChildsKeepInvariants(n: Node, m: Node)
    requires m.box == n.box && m.childs == n.childs
    ensures Shaped(n) ==> Shaped(m)
    ensures Pruned(n) ==> Pruned(m)
  {
    assert forall j: nat :: Child(m, j) == Child(n, j);
  }

  /** A node without children is shaped when its box has an axis, and always pruned. */
  lemma EmptyKeepsInvariants(box: Box)
    ensures Shaped(Empty(box))
    ensures Pruned(Empty(box))
  {
    assert forall j: nat :: !HasChild(Empty(box), j);
  }

  /** Storing a shaped, non-empty child over partition i keeps a node shaped and pruned. */
  lemma SetChildKeepsInvariants(n: Node, i: nat, c: Node)
    requires i < PartitionCount(n.box) && c.box == Half(n.box, i)
    ensures Shaped(n) && Shaped(c) ==> Shaped(SetChild(n, i, c))
    ensures Pruned(n) && Pruned(c) && Occupied(c) ==> Pruned(SetChild(n, i, c))
    ensures Occupied(SetChild(n, i, c))
  {
    assert HasChild(SetChild(n, i, c), i);
  }

  // ---------------------------------------------------------------------
  // insert

  /** The chain `insert` grows in a new node ends at a node where b fits. */
  lemma {:induction false} GrowPlaces(cell: Box, id: EntityId, b: Box)
    requires Solid(b) && Encloses(cell, b)
    ensures var g := Grow(cell, id, b);
            Lookup(g.node, g.path).Some? && Fits(Lookup(g.node, g.path).value.box, b)
    decreases Measure(cell, b)
  {
    var k := ContainingPartitionIndex(cell, b);
    if k != -1 {
      var i := k as nat;
      Descends(cell, b, i);
      GrowPlaces(Half(cell, i), id, b);
      var sub := Grow(Half(cell, i), id, b);
      LookupSetChild(Empty(cell), i, sub.node, sub.path);
    }
  }

  /**
    After a successful `insert` there is a node at the returned path, its
    box contains b, and no partition of it does: b sits as deep as it can.
   */
  lemma {:induction false} InsertPlaces(n: Node, id: EntityId, b: Box)
    requires Solid(b) && Insert(n, id, b).Success?
    ensures var pl := Insert(n, id, b).value;
            Lookup(pl.node, pl.path).Some? && Fits(Lookup(pl.node, pl.path).value.box, b)
    decreases n
  {
    var k := ContainingPartitionIndex(n.box, b);
    if k != -1 {
      var i := k as nat;
      match Child(n, i)
      case Some(c) =>
        InsertPlaces(c, id, b);
        var sub := Insert(c, id, b).value;
        LookupSetChild(n, i, sub.node, sub.path);
      case None =>
        GrowPlaces(Half(n.box, i), id, b);
        var sub := Grow(Half(n.box, i), id, b);
        LookupSetChild(n, i, sub.node, sub.path);
    }
  }

  /** The chain `insert` grows in a new node lists the id at its end and nothing anywhere else. */
  lemma {:induction false} GrowFrame(cell: Box, id: EntityId, b: Box)
    requires Solid(b) && Encloses(cell, b)
    ensures var g := Grow(cell, id, b);
            Appended(Empty(cell), g.node, g.path, id)
    decreases Measure(cell, b)
  {
    var k := ContainingPartitionIndex(cell, b);
    if k == -1 {
      AppendedByPush(Empty(cell), id);
    } else {
      var i := k as nat;
      Descends(cell, b, i);
      GrowFrame(Half(cell, i), id, b);
      var sub := Grow(Half(cell, i), id, b);
      AppendedIntoEmptySlot(Empty(cell), i, sub.node, sub.path, id);
    }
  }

  /**
    A successful `insert` appends the id to the list at the returned path
    and changes no other list; every node that was there is still there,
    over the same box.
   */
  lemma {:induction false} InsertFrame(n: Node, id: EntityId, b: Box)
    requires Solid(b) && Insert(n, id, b).Success?
    ensures var pl := Insert(n, id, b).value;
            Appended(n, pl.node, pl.path, id)
    decreases n
  {
    var k := ContainingPartitionIndex(n.box, b);
    if k == -1 {
      AppendedByPush(n, id);
    } else {
      var i := k as nat;
      match Child(n, i)
      case Some(c) =>
        InsertFrame(c, id, b);
        var sub := Insert(c, id, b).value;
        AppendedThroughChild(n, i, sub.node, sub.path, id);
      case None =>
        GrowFrame(Half(n.box, i), id, b);
        var sub := Grow(Half(n.box, i), id, b);
        AppendedIntoEmptySlot(n, i, sub.node, sub.path, id);
    }
  }

  /**
    In a shaped tree `insert` fails exactly when the root's box does not
    contain b: `OutOfBoundInsert`, or `DimensionMismatch` for a box of
    another dimension.
   */
  lemma {:induction false} InsertSucceeds(n: Node, id: EntityId, b: Box)
    requires Solid(b) && Shaped(n)
    ensures Insert(n, id, b).Success? <==> Encloses(n.box, b)
    decreases n
  {
    if Encloses(n.box, b) {
      InsertStep(n, id, b);
      var k := ContainingPartitionIndex(n.box, b);
      if k != -1 && HasChild(n, k as nat) {
        var c := Child(n, k as nat).value;
        assert Shaped(c) && Encloses(c.box, b);
        InsertSucceeds(c, id, b);
      }
    }
  }

  /** Inside the node's box, `insert` succeeds here or fails exactly as it does in the child it descends to. */
  lemma InsertStep(n: Node, id: EntityId, b: Box)
    requires Solid(b) && Encloses(n.box, b)
    ensures var k := ContainingPartitionIndex(n.box, b);
            Insert(n, id, b).Success? <==>
              k == -1 || !HasChild(n, k as nat) || Insert(Child(n, k as nat).value, id, b).Success?
  {
  }

  /** The chain `insert` grows in a new node is shaped, pruned and not empty. */
  lemma {:induction false} GrowKeepsInvariants(cell: Box, id: EntityId, b: Box)
    requires Solid(b) && Encloses(cell, b)
    ensures var g := Grow(cell, id, b).node;
            Shaped(g) && Pruned(g) && Occupied(g)
    decreases Measure(cell, b)
  {
    var k := ContainingPartitionIndex(cell, b);
    EmptyKeepsInvariants(cell);
    if k == -1 {
      SameChildsKeepInvariants(Empty(cell), Push(Empty(cell), id));
    } else {
      var i := k as nat;
      Descends(cell, b, i);
      GrowKeepsInvariants(Half(cell, i), id, b);
      var sub := Grow(Half(cell, i), id, b);
      SetChildKeepsInvariants(Empty(cell), i, sub.node);
    }
  }

  /**
    `insert` keeps a tree shaped and pruned: a new child is created over
    the partition of its slot, and every node on the way to b lists it or
    leads to it.
   */
  lemma {:induction false} InsertKeepsInvariants(n: Node, id: EntityId, b: Box)
    requires Solid(b) && Shaped(n) && Pruned(n) && Insert(n, id, b).Success?
    ensures var m := Insert(n, id, b).value.node;
            Shaped(m) && Pruned(m) && Occupied(m)
    decreases n
  {
    var k := ContainingPartitionIndex(n.box, b);
    if k == -1 {
      SameChildsKeepInvariants(n, Push(n, id));
    } else {
      var i := k as nat;
      match Child(n, i)
      case Some(c) =>
        InsertKeepsInvariants(c, id, b);
        var sub := Insert(c, id, b).value;
        SetChildKeepsInvariants(n, i, sub.node);
      case None =>
        GrowKeepsInvariants(Half(n.box, i), id, b);
        var sub := Grow(Half(n.box, i), id, b);
        SetChildKeepsInvariants(n, i, sub.node);
    }
  }

  // ---------------------------------------------------------------------
  // detachEntity and clean

  /**
    A successful `detachEntity` removes one occurrence of the id from the
    list at p and changes no other list; nodes only disappear, and the
    ones left keep their boxes.
   */
  lemma {:induction false} DetachFrame(n: Node, p: Path, id: EntityId)
    requires Lookup(n, p).Some? && id in EntitiesAt(n, p)
    ensures Removed(n, Detach(n, p, id).value, p, id)
    decreases p
  {
    if p == [] {
      var m := Detach(n, p, id).value;
      forall q | q != []
        ensures Lookup(m, q) == Lookup(n, q)
      {
        SameChildsBelow(m, n, q);
      }
    } else {
      var i := p[0];
      SplitPath(n, p);
      var c := Child(n, i).value;
      DetachFrame(c, p[1..], id);
      var c' := Detach(c, p[1..], id).value;
      RemovedThroughChild(n, i, c', p[1..], id);
    }
  }

  /**
    `detachEntity` keeps a tree shaped and pruned: `clean` deletes every
    node the removal left empty, all the way up to, but not including, the
    root.
   */
  lemma {:induction false} DetachKeepsInvariants(n: Node, p: Path, id: EntityId)
    requires Lookup(n, p).Some? && id in EntitiesAt(n, p)
    requires Shaped(n) && Pruned(n)
    ensures var m := Detach(n, p, id).value;
            Shaped(m) && Pruned(m)
    decreases p
  {
    var m := Detach(n, p, id).value;
    if p == [] {
      SameChildsKeepInvariants(n, m);
    } else {
      var i := p[0];
      SplitPath(n, p);
      var c := Child(n, i).value;
      DetachKeepsInvariants(c, p[1..], id);
      var c' := Detach(c, p[1..], id).value;
      CleanSetChildKeepsInvariants(n, i, c');
    }
  }

  /** Storing c in slot i and cleaning it keeps the invariants, whether or not c is empty. */
  lemma CleanSetChildKeepsInvariants(n: Node, i: nat, c: Node)
    requires HasChild(n, i) && Shaped(n) && Pruned(n)
    requires c.box == Child(n, i).value.box && Shaped(c) && Pruned(c)
    ensures Shaped(Clean(SetChild(n, i, c), i)) && Pruned(Clean(SetChild(n, i, c), i))
  {
    var m := Clean(SetChild(n, i, c), i);
    assert forall j: nat :: j != i ==> Child(m, j) == Child(n, j);
  }

  /** A pruned node with a child in slot i has an entity somewhere below that slot. */
  lemma {:induction false} ChildHoldsEntity(n: Node, i: nat)
    requires Pruned(n)
    ensures HasChild(n, i) ==> exists q :: EntitiesAt(n, [i] + q) != []
    decreases n
  {
    if HasChild(n, i) {
      var c := Child(n, i).value;
      if HasEntities(c) {
        LookupChild(n, i, []);
      } else {
        var j :| 0 <= j < |Slots(c)| && HasChild(c, j);
        ChildHoldsEntity(c, j);
        var q: Path :| EntitiesAt(c, [j] + q) != [];
        LookupChild(n, i, [j] + q);
      }
    }
  }

  /**
    Detaching the last entity of a pruned tree leaves only the root:
    `clean` removes the whole emptied chain and never the root itself.
   */
  lemma DetachLastEntity(n: Node, p: Path, id: EntityId)
    requires Lookup(n, p).Some? && EntitiesAt(n, p) == [id]
    requires forall q :: q != p ==> EntitiesAt(n, q) == []
    requires Shaped(n) && Pruned(n)
    ensures var m := Detach(n, p, id).value;
            && m.box == n.box
            && (forall q :: EntitiesAt(m, q) == [])
            && (forall q :: Lookup(m, q).Some? <==> q == [])
  {
    var m := Detach(n, p, id).value;
    DetachFrame(n, p, id);
    DetachKeepsInvariants(n, p, id);
    assert Remove([id], id) == [];
    forall q | q != []
      ensures Lookup(m, q).None?
    {
      SplitPath(m, q);
      ChildHoldsEntity(m, q[0]);
    }
  }

  // ---------------------------------------------------------------------
  // Shape

  /** Every node of a shaped tree is shaped, over a box of the root's dimension. */
  lemma {:induction false} ShapedBelow(n: Node, q: Path)
    requires Shaped(n) && Lookup(n, q).Some?
    ensures Shaped(Lookup(n, q).value) && Dim(Lookup(n, q).value.box) == Dim(n.box)
    decreases q
  {
    if q != [] {
      SplitPath(n, q);
      ShapedBelow(Child(n, q[0]).value, q[1..]);
    }
  }

  /**
    In a shaped tree the child in slot i of any node is over
    `partition(i)` of that node's box, and lies inside it when the box is
    ordered.
   */
  lemma ChildInsideParent(n: Node, q: Path, i: nat)
    requires Shaped(n) && Lookup(n, q).Some? && HasChild(Lookup(n, q).value, i)
    ensures var m := Lookup(n, q).value;
            var c := Child(m, i).value;
            && i < PartitionCount(m.box)
            && c.box == Partition(m.box, i)
            && (Ordered(m.box) ==> Ordered(c.box) && Encloses(m.box, c.box))
  {
    ShapedBelow(n, q);
    var m := Lookup(n, q).value;
    PartitionIsCopy(m.box, i);
    PartitionShape(m.box, i);
  }

  // ---------------------------------------------------------------------
  // containingNode

  /** When the child in slot i is the first to contain b, `containingNode` goes through it. */
  lemma ContainingNodeThrough(n: Node, i: nat, b: Box)
    requires Encloses(n.box, b) && HasChild(n, i) && Encloses(Child(n, i).value.box, b)
    requires forall j: nat :: j < i && HasChild(n, j) ==> !Encloses(Child(n, j).value.box, b)
    ensures ContainingNode(n, b) == [i] + ContainingNode(Child(n, i).value, b)
  {
    var r := ContainingChild(n, b);
    assert r.Some?;
    assert r.value == i;
  }

  /** In a shaped node, no child before slot `containingPartitionIndex` contains b. */
  lemma NoEarlierChildEncloses(n: Node, b: Box)
    requires Shaped(n) && Dim(b) == Dim(n.box)
    ensures var k := ContainingPartitionIndex(n.box, b);
            forall j: nat :: (k == -1 || j < k) && HasChild(n, j) ==> !Encloses(Child(n, j).value.box, b)
  {
    var k := ContainingPartitionIndex(n.box, b);
    forall j: nat | (k == -1 || j < k) && HasChild(n, j)
      ensures !Encloses(Child(n, j).value.box, b)
    {
      assert Child(n, j).value.box == Half(n.box, j);
    }
  }

  /** A shaped node where b fits is where `containingNode` stops, whatever its own list. */
  lemma ContainingNodeStops(n: Node, m: Node, b: Box)
    requires Shaped(n) && Fits(n.box, b)
    requires m.box == n.box && m.childs == n.childs
    ensures ContainingNode(m, b) == []
  {
    NoEarlierChildEncloses(n, b);
    assert forall j: nat :: Child(m, j) == Child(n, j);
  }

  /**
    Storing a child over the first partition that contains b makes
    `containingNode` go through that child.
   */
  lemma ContainingNodeThroughSet(n: Node, c: Node, b: Box)
    requires Shaped(n) && Dim(b) == Dim(n.box) && Encloses(n.box, b)
    requires ContainingPartitionIndex(n.box, b) >= 0
    requires c.box == Half(n.box, ContainingPartitionIndex(n.box, b))
    ensures var i := ContainingPartitionIndex(n.box, b) as nat;
            ContainingNode(SetChild(n, i, c), b) == [i] + ContainingNode(c, b)
  {
    var i := ContainingPartitionIndex(n.box, b) as nat;
    var m := SetChild(n, i, c);
    NoEarlierChildEncloses(n, b);
    assert forall j: nat :: j != i ==> Child(m, j) == Child(n, j);
    ContainingNodeThrough(m, i, b);
  }

  /** In a grown chain, `containingNode` follows the chain to its end. */
  lemma {:induction false} ContainingNodeOfGrow(cell: Box, id: EntityId, b: Box)
    requires Solid(b) && Encloses(cell, b)
    ensures var g := Grow(cell, id, b);
            ContainingNode(g.node, b) == g.path
    decreases Measure(cell, b)
  {
    var k := ContainingPartitionIndex(cell, b);
    EmptyKeepsInvariants(cell);
    if k == -1 {
      ContainingNodeStops(Empty(cell), Push(Empty(cell), id), b);
    } else {
      var i := k as nat;
      Descends(cell, b, i);
      ContainingNodeOfGrow(Half(cell, i), id, b);
      ContainingNodeThroughSet(Empty(cell), Grow(Half(cell, i), id, b).node, b);
    }
  }

  /**
    In a shaped tree, `containingNode` of b after inserting b is the node
    `insert` stored it in.
   */
  lemma {:induction false} ContainingNodeFindsPlacement(n: Node, id: EntityId, b: Box)
    requires Solid(b) && Shaped(n) && Insert(n, id, b).Success?
    ensures var pl := Insert(n, id, b).value;
            Encloses(pl.node.box, b) && ContainingNode(pl.node, b) == pl.path
    decreases n
  {
    var k := ContainingPartitionIndex(n.box, b);
    if k == -1 {
      ContainingNodeStops(n, Push(n, id), b);
    } else {
      var i := k as nat;
      match Child(n, i)
      case Some(c) =>
        ContainingNodeFindsPlacement(c, id, b);
        ContainingNodeThroughSet(n, Insert(c, id, b).value.node, b);
      case None =>
        ContainingNodeOfGrow(Half(n.box, i), id, b);
        ContainingNodeThroughSet(n, Grow(Half(n.box, i), id, b).node, b);
    }
  }
}
