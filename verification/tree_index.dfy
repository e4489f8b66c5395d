/**
  A split tree together with the entity records its lists name.

  In the library an entity object and its tree node point at each other:
  the node lists the entity, and `entity.parent` is the node. Here the
  records live in a map from id to `Entity`, and `parent` holds the
  node's path. `Inv` is the state every operation here starts from and
  returns to. It holds when:
  - the tree is shaped and pruned;
  - every listed id appears once, in exactly one node;
  - that node's box contains the entity's box and none of its partitions
    does, the test at which `insert` stops;
  - the entity's `parent` names that node.
 */
module TreeIndex {
  import opened Outcomes
  import opened Vectors
  import opened Boxes
  import opened SplitTree
  import opened SplitTreeProps
  import opened Traversal
  import opened Entities
  import Spaces

  datatype Index = Index(root: Node, entities: map<EntityId, Entity>)

  /** The box of a recorded entity. */
  function BoxOf(t: Index, id: EntityId): Box
    requires id in t.entities
  {
    EntityBox(t.entities[id])
  }

  /**
    id is listed once at q, its parent link names q, and the node at q
    passes the test at which `insert` stops: it contains the box and none
    of its partitions does.
   */
  ghost predicate StoredAt(t: Index, id: EntityId, q: Path) {
    && id in t.entities
    && t.entities[id].parent == Some(q)
    && multiset(EntitiesAt(t.root, q))[id] == 1
    && Lookup(t.root, q).Some?
    && Fits(Lookup(t.root, q).value.box, BoxOf(t, id))
  }

  /** Every listed id is stored where it is listed. */
  ghost predicate ListsStored(t: Index) {
    forall q, id :: id in EntitiesAt(t.root, q) ==> StoredAt(t, id, q)
  }

  /** Every parent link leads to a list naming the entity. */
  ghost predicate LinksListed(t: Index) {
    forall id :: id in t.entities && t.entities[id].parent.Some? ==>
      id in EntitiesAt(t.root, t.entities[id].parent.value)
  }

  /** Every recorded entity has a size. */
  ghost predicate AllSized(t: Index) {
    forall id :: id in t.entities ==> HasSize(t.entities[id].extents)
  }

  ghost predicate Inv(t: Index) {
    && Shaped(t.root) && Pruned(t.root)
    && AllSized(t) && ListsStored(t) && LinksListed(t)
  }

  /** An index over a fresh tree with no entities. */
  function NewIndex(s: Spaces.Space): (t: Index)
    ensures t.root.box == Spaces.RootBox(s) && t.entities == map[]
    ensures Inv(t)
  {
    var t := Index(NewRoot(s), map[]);
    EmptyKeepsInvariants(t.root.box);
    t
  }

  /** Nothing lists an entity whose parent link is empty, or one not recorded at all. */
  lemma UnlinkedIsNotListed(t: Index, id: EntityId, q: Path)
    requires ListsStored(t)
    requires id !in t.entities || t.entities[id].parent.None?
    ensures id !in EntitiesAt(t.root, q)
  {
  }

  /** No list of the tree names an entity without a parent link. */
  lemma UnlinkedIsNowhere(t: Index, id: EntityId)
    requires ListsStored(t)
    requires id !in t.entities || t.entities[id].parent.None?
    ensures forall q :: id !in EntitiesAt(t.root, q)
  {
    forall q
      ensures id !in EntitiesAt(t.root, q)
    {
      UnlinkedIsNotListed(t, id, q);
    }
  }

  /** An entity lives in exactly one node, listed once there. */
  lemma ListedOnce(t: Index, id: EntityId, q1: Path, q2: Path)
    requires Inv(t) && id in EntitiesAt(t.root, q1) && id in EntitiesAt(t.root, q2)
    ensures q1 == q2 && multiset(EntitiesAt(t.root, q1))[id] == 1
  {
    assert StoredAt(t, id, q1) && StoredAt(t, id, q2);
  }

  // ---------------------------------------------------------------------
  // insert

  /**
    `tree.insert(entity)` for an entity no node lists yet: the entity's
    `parent` becomes the node `insert` chose.
   */
  function InsertEntity(t: Index, id: EntityId, e: Entity): (r: Result<Index>)
    requires HasSize(e.extents)
    ensures Dim(EntityBox(e)) != Dim(t.root.box) ==> r == Failure(DimensionMismatch)
    ensures Dim(EntityBox(e)) == Dim(t.root.box) && !Encloses(t.root.box, EntityBox(e)) ==> r == Failure(OutOfBoundInsert)
    ensures r.Success? ==> r.value.root.box == t.root.box && id in r.value.entities
    ensures r.Success? ==> r.value.entities[id] == e.(parent := r.value.entities[id].parent)
    ensures r.Success? ==> r.value.entities == t.entities[id := r.value.entities[id]]
  {
    SolidIffSized(e.position, e.extents);
    var pl :- Insert(t.root, id, EntityBox(e));
    Success(Index(pl.node, t.entities[id := e.(parent := Some(pl.path))]))
  }

  /** In an index that keeps the invariant, inserting fails exactly when the root does not contain the box. */
  lemma InsertEntityFails(t: Index, id: EntityId, e: Entity)
    requires Inv(t) && (id !in t.entities || t.entities[id].parent.None?) && HasSize(e.extents)
    ensures InsertEntity(t, id, e).Success? <==> Encloses(t.root.box, EntityBox(e))
  {
    SolidIffSized(e.position, e.extents);
    InsertSucceeds(t.root, id, EntityBox(e));
  }

  /** After an append at p of an id no list held, the lists are stored in the new index. */
  lemma StoredAfterInsert(t: Index, r: Index, id: EntityId, p: Path)
    requires ListsStored(t) && forall q :: id !in EntitiesAt(t.root, q)
    requires Appended(t.root, r.root, p, id)
    requires id in r.entities && r.entities == t.entities[id := r.entities[id]]
    requires r.entities[id].parent == Some(p)
    requires Fits(Lookup(r.root, p).value.box, BoxOf(r, id))
    ensures ListsStored(r)
  {
    forall q, x | x in EntitiesAt(r.root, q)
      ensures StoredAt(r, x, q)
    {
      if q == p && x == id {
        assert multiset(EntitiesAt(r.root, p))[id] == multiset(EntitiesAt(t.root, p))[id] + 1;
      } else {
        if q == p {
          assert x in EntitiesAt(t.root, p) + [id];
          assert multiset(EntitiesAt(r.root, p))[x] == multiset(EntitiesAt(t.root, p))[x];
        }
        assert x in EntitiesAt(t.root, q);
        assert StoredAt(t, x, q);
      }
    }
  }

  /** After the same append, every parent link still leads to a list naming its entity. */
  lemma LinksAfterInsert(t: Index, r: Index, id: EntityId, p: Path)
    requires LinksListed(t)
    requires Appended(t.root, r.root, p, id)
    requires id in r.entities && r.entities == t.entities[id := r.entities[id]]
    requires r.entities[id].parent == Some(p)
    ensures LinksListed(r)
  {
    assert id in EntitiesAt(t.root, p) + [id];
    forall x | x in r.entities && x != id && r.entities[x].parent.Some?
      ensures x in EntitiesAt(r.root, r.entities[x].parent.value)
    {
      var q := r.entities[x].parent.value;
      assert x in EntitiesAt(t.root, q);
      if q == p {
        assert x in EntitiesAt(t.root, p) + [id];
      }
    }
  }

  /** Recording the entity at the path of an append keeps the invariant. */
  lemma PlacementKeepsInv(t: Index, id: EntityId, e: Entity, pl: Placement)
    requires Inv(t) && (id !in t.entities || t.entities[id].parent.None?) && HasSize(e.extents)
    requires Appended(t.root, pl.node, pl.path, id)
    requires Fits(Lookup(pl.node, pl.path).value.box, EntityBox(e))
    requires Shaped(pl.node) && Pruned(pl.node)
    ensures var r := Index(pl.node, t.entities[id := e.(parent := Some(pl.path))]);
            Inv(r) && StoredAt(r, id, pl.path)
  {
    var r := Index(pl.node, t.entities[id := e.(parent := Some(pl.path))]);
    var linked := e.(parent := Some(pl.path));
    assert EntityBox(linked) == EntityBox(e);
    UnlinkedIsNowhere(t, id);
    AppendedKeepsLinks(t, pl.node, id, pl.path, linked);
  }

  /** An index whose tree appends id at p, and whose map links id there, keeps both halves of the link invariant. */
  lemma AppendedKeepsLinks(t: Index, m: Node, id: EntityId, p: Path, e: Entity)
    requires ListsStored(t) && LinksListed(t) && forall q :: id !in EntitiesAt(t.root, q)
    requires Appended(t.root, m, p, id) && e.parent == Some(p)
    requires Fits(Lookup(m, p).value.box, EntityBox(e))
    ensures var r := Index(m, t.entities[id := e]);
            ListsStored(r) && LinksListed(r)
  {
    var r := Index(m, t.entities[id := e]);
    StoredAfterInsert(t, r, id, p);
    LinksAfterInsert(t, r, id, p);
  }

  /**
    A successful insert keeps the invariant. The entity is listed at its
    new parent link and nowhere else, where its box fits, and no other
    list changed.
   */
  lemma InsertEntityKeepsInv(t: Index, id: EntityId, e: Entity)
    requires Inv(t) && (id !in t.entities || t.entities[id].parent.None?) && HasSize(e.extents)
    requires InsertEntity(t, id, e).Success?
    ensures var r := InsertEntity(t, id, e).value;
            && Inv(r)
            && r.entities[id].parent.Some?
            && StoredAt(r, id, r.entities[id].parent.value)
            && Appended(t.root, r.root, r.entities[id].parent.value, id)
  {
    SolidIffSized(e.position, e.extents);
    var b := EntityBox(e);
    var pl := Insert(t.root, id, b).value;
    InsertFrame(t.root, id, b);
    InsertPlaces(t.root, id, b);
    InsertKeepsInvariants(t.root, id, b);
    PlacementKeepsInv(t, id, e, pl);
  }

  // ---------------------------------------------------------------------
  // detachEntity

  /**
    `detachEntity` run on the node at p: `EntityNotFound` unless that node
    lists the id; otherwise the id leaves the list, `clean` prunes, and
    the entity's `parent` becomes empty.
   */
  function DetachEntity(t: Index, p: Path, id: EntityId): (r: Result<Index>)
    requires Lookup(t.root, p).Some?
    ensures r.Failure? <==> id !in EntitiesAt(t.root, p)
    ensures r.Failure? ==> r.error == EntityNotFound
    ensures r.Success? ==> r.value.root.box == t.root.box && r.value.entities.Keys == t.entities.Keys
    ensures r.Success? && id in t.entities ==>
              r.value.entities[id] == t.entities[id].(parent := None)
    ensures r.Success? && id in t.entities ==> r.value.entities == t.entities[id := r.value.entities[id]]
    ensures r.Success? && id !in t.entities ==> r.value.entities == t.entities
  {
    var root :- Detach(t.root, p, id);
    var entities := if id in t.entities then t.entities[id := t.entities[id].(parent := None)] else t.entities;
    Success(Index(root, entities))
  }

  /** After removing a listed id at p, no list of the new tree names it. */
  lemma GoneAfterDetach(t: Index, r: Index, id: EntityId, p: Path)
    requires ListsStored(t) && StoredAt(t, id, p)
    requires Removed(t.root, r.root, p, id)
    ensures forall q :: id !in EntitiesAt(r.root, q)
  {
    forall q
      ensures id !in EntitiesAt(r.root, q)
    {
      if q == p {
        assert multiset(EntitiesAt(r.root, p))[id] == 0;
      } else {
        assert id !in EntitiesAt(t.root, q);
      }
    }
  }

  /**
    One remaining entry x of the new list at q is stored there: it was
    stored at q before, the list kept its one copy of x, and the node at q
    kept its box.
   */
  lemma StoredAfterDetachAt(t: Index, r: Index, id: EntityId, q: Path, x: EntityId)
    requires x in EntitiesAt(t.root, q) ==> StoredAt(t, x, q)
    requires multiset(EntitiesAt(r.root, q))[x] == multiset(EntitiesAt(t.root, q))[x]
    requires Lookup(r.root, q).Some? ==> Lookup(t.root, q).Some? && Lookup(r.root, q).value.box == Lookup(t.root, q).value.box
    requires id in t.entities && r.entities == t.entities[id := t.entities[id].(parent := None)]
    requires x in EntitiesAt(r.root, q) && x != id
    ensures StoredAt(r, x, q)
  {
    assert x in multiset(EntitiesAt(t.root, q));
    assert r.entities[x] == t.entities[x];
  }

  /** After removing a listed id at p, the remaining lists are stored in the new index. */
  lemma StoredAfterDetach(t: Index, r: Index, id: EntityId, p: Path)
    requires ListsStored(t) && StoredAt(t, id, p)
    requires Removed(t.root, r.root, p, id)
    requires r.entities == t.entities[id := t.entities[id].(parent := None)]
    ensures ListsStored(r)
    ensures forall q :: id !in EntitiesAt(r.root, q)
  {
    GoneAfterDetach(t, r, id, p);
    forall q, x | x in EntitiesAt(r.root, q)
      ensures StoredAt(r, x, q)
    {
      assert x != id;
      if q == p {
        assert multiset(EntitiesAt(r.root, p))[x] == multiset(EntitiesAt(t.root, p))[x];
      }
      StoredAfterDetachAt(t, r, id, q, x);
    }
  }

  /** After the same removal, every parent link still leads to a list naming its entity. */
  lemma LinksAfterDetach(t: Index, r: Index, id: EntityId, p: Path)
    requires LinksListed(t) && id in t.entities
    requires Removed(t.root, r.root, p, id)
    requires r.entities == t.entities[id := t.entities[id].(parent := None)]
    ensures LinksListed(r)
  {
    forall x | x in r.entities && r.entities[x].parent.Some?
      ensures x in EntitiesAt(r.root, r.entities[x].parent.value)
    {
      var q := r.entities[x].parent.value;
      assert x != id;
      assert x in EntitiesAt(t.root, q);
      if q == p {
        assert multiset(EntitiesAt(r.root, p))[x] == multiset(EntitiesAt(t.root, p))[x];
      }
    }
  }

  /**
    A successful detach keeps the invariant: the id is gone from every
    list, its parent link is empty, the list at p lost one entry, and no
    other list changed.
   */
  lemma DetachEntityKeepsInv(t: Index, p: Path, id: EntityId)
    requires Inv(t) && Lookup(t.root, p).Some? && DetachEntity(t, p, id).Success?
    ensures var r := DetachEntity(t, p, id).value;
            && Inv(r)
            && id in r.entities && r.entities[id].parent.None?
            && (forall q :: id !in EntitiesAt(r.root, q))
            && Removed(t.root, r.root, p, id)
  {
    var r := DetachEntity(t, p, id).value;
    assert StoredAt(t, id, p);
    assert r.entities == t.entities[id := t.entities[id].(parent := None)];
    DetachFrame(t.root, p, id);
    DetachKeepsInvariants(t.root, p, id);
    DetachedKeepsInv(t, r, id, p);
  }

  /** A tree with id removed at p and its link cleared keeps the invariant. */
  lemma DetachedKeepsInv(t: Index, r: Index, id: EntityId, p: Path)
    requires Inv(t) && StoredAt(t, id, p)
    requires Shaped(r.root) && Pruned(r.root) && Removed(t.root, r.root, p, id)
    requires r.entities == t.entities[id := t.entities[id].(parent := None)]
    ensures Inv(r) && forall q :: id !in EntitiesAt(r.root, q)
  {
    StoredAfterDetach(t, r, id, p);
    LinksAfterDetach(t, r, id, p);
  }

  // ---------------------------------------------------------------------
  // reinsert, moveEntity and Entity.move

  /**
    `reinsert(entity, newPosition)` on the node at p: detach there, set
    the position, insert from the root.
   */
  function Reinsert(t: Index, p: Path, id: EntityId, newPosition: Vector): (r: Result<Index>)
    requires Lookup(t.root, p).Some? && id in t.entities && HasSize(t.entities[id].extents)
    ensures id !in EntitiesAt(t.root, p) ==> r == Failure(EntityNotFound)
    ensures r.Success? ==> id in r.value.entities && r.value.entities == t.entities[id := r.value.entities[id]]
    ensures r.Success? ==> r.value.entities[id] == t.entities[id].(position := newPosition, parent := r.value.entities[id].parent)
  {
    var t1 :- DetachEntity(t, p, id);
    var e := t1.entities[id].(position := newPosition);
    assert e == t.entities[id].(position := newPosition, parent := None);
    var r := InsertEntity(t1, id, e);
    if r.Success? then
      UpdateTwice(t.entities, t1.entities, r.value.entities, id);
      r
    else r
  }

  /** Two maps that each differ from the one before only at id differ from the first only at id. */
  lemma UpdateTwice(m0: map<EntityId, Entity>, m1: map<EntityId, Entity>, m2: map<EntityId, Entity>, id: EntityId)
    requires id in m1 && m1 == m0[id := m1[id]]
    requires id in m2 && m2 == m1[id := m2[id]]
    ensures m2 == m0[id := m2[id]]
  {
  }

  /** A successful reinsert keeps the invariant and stores the entity where its new box fits. */
  lemma ReinsertKeepsInv(t: Index, p: Path, id: EntityId, newPosition: Vector)
    requires Inv(t) && Lookup(t.root, p).Some? && id in t.entities
    requires Reinsert(t, p, id, newPosition).Success?
    ensures var r := Reinsert(t, p, id, newPosition).value;
            && Inv(r)
            && r.entities[id].parent.Some?
            && StoredAt(r, id, r.entities[id].parent.value)
  {
    DetachEntityKeepsInv(t, p, id);
    var t1 := DetachEntity(t, p, id).value;
    var e := t1.entities[id].(position := newPosition);
    InsertEntityKeepsInv(t1, id, e);
  }

  /**
    `moveEntity(entity, newPosition)` on the node at p: false, and nothing
    changes, when the root does not contain the moved box; otherwise
    reinsert and true. A box of another dimension makes `containsAABB`
    throw.
   */
  function MoveEntity(t: Index, p: Path, id: EntityId, newPosition: Vector): (r: Result<(Index, bool)>)
    requires Lookup(t.root, p).Some? && id in t.entities && HasSize(t.entities[id].extents)
    ensures var b := MovedBox(t.entities[id], newPosition);
            && (Dim(b) != Dim(t.root.box) ==> r == Failure(DimensionMismatch))
            && (Dim(b) == Dim(t.root.box) && !Encloses(t.root.box, b) ==> r == Success((t, false)))
            && (r.Success? ==> (r.value.1 <==> Encloses(t.root.box, b)))
            && (r.Success? && r.value.1 ==> Reinsert(t, p, id, newPosition) == Success(r.value.0))
            && (r.Success? && r.value.1 ==>
                  && r.value.0.entities == t.entities[id := r.value.0.entities[id]]
                  && r.value.0.entities[id] == t.entities[id].(position := newPosition, parent := r.value.0.entities[id].parent))
  {
    var b := MovedBox(t.entities[id], newPosition);
    if Dim(b) != Dim(t.root.box) then Failure(DimensionMismatch)
    else if !Encloses(t.root.box, b) then Success((t, false))
    else
      var t' :- Reinsert(t, p, id, newPosition);
      Success((t', true))
  }

  /** A linked entity's parent link leads to a node listing it, and its box has the root's dimension. */
  lemma LinkedEntity(t: Index, id: EntityId)
    requires Inv(t) && id in t.entities && t.entities[id].parent.Some?
    ensures var p := t.entities[id].parent.value;
            && Lookup(t.root, p).Some? && id in EntitiesAt(t.root, p)
            && Dim(BoxOf(t, id)) == Dim(t.root.box)
  {
    var p := t.entities[id].parent.value;
    assert id in EntitiesAt(t.root, p);
    assert StoredAt(t, id, p);
    ShapedBelow(t.root, p);
  }

  /**
    `moveEntity` on the node the entity's parent link names, in an index
    that keeps the invariant, never fails for a new position with one
    component per axis.
   */
  lemma MoveEntitySucceeds(t: Index, id: EntityId, newPosition: Vector)
    requires Inv(t) && id in t.entities && t.entities[id].parent.Some?
    requires |newPosition| == Dim(t.root.box)
    ensures Lookup(t.root, t.entities[id].parent.value).Some?
    ensures MoveEntity(t, t.entities[id].parent.value, id, newPosition).Success?
    ensures Encloses(t.root.box, MovedBox(t.entities[id], newPosition)) ==>
              MoveEntity(t, t.entities[id].parent.value, id, newPosition).value.1
  {
    LinkedEntity(t, id);
    var p := t.entities[id].parent.value;
    var b := MovedBox(t.entities[id], newPosition);
    if Encloses(t.root.box, b) {
      DetachEntityKeepsInv(t, p, id);
      var t1 := DetachEntity(t, p, id).value;
      var e := t1.entities[id].(position := newPosition);
      MovedBoxIsNewBox(t.entities[id], newPosition);
      assert EntityBox(e) == b;
      InsertEntityFails(t1, id, e);
    }
  }

  /**
    A move inside the root answers true, keeps the invariant, and stores
    the entity at its new position where its box fits.
   */
  lemma MoveEntityKeepsInv(t: Index, id: EntityId, newPosition: Vector)
    requires Inv(t) && id in t.entities && t.entities[id].parent.Some?
    ensures Lookup(t.root, t.entities[id].parent.value).Some?
    ensures var r := MoveEntity(t, t.entities[id].parent.value, id, newPosition);
            r.Success? && r.value.1 ==>
              && Inv(r.value.0)
              && r.value.0.entities[id].position == newPosition
              && r.value.0.entities[id].parent.Some?
              && StoredAt(r.value.0, id, r.value.0.entities[id].parent.value)
  {
    LinkedEntity(t, id);
    var p := t.entities[id].parent.value;
    var b := MovedBox(t.entities[id], newPosition);
    if Dim(b) == Dim(t.root.box) && Encloses(t.root.box, b) && Reinsert(t, p, id, newPosition).Success? {
      ReinsertKeepsInv(t, p, id, newPosition);
    }
  }

  /**
    `Entity.move(newPosition)`: an entity no node lists just takes the
    position and answers false; a listed one asks its node to
    `moveEntity`.
   */
  function Move(t: Index, id: EntityId, newPosition: Vector): (r: Result<(Index, bool)>)
    requires id in t.entities
    requires t.entities[id].parent.Some? ==>
               Lookup(t.root, t.entities[id].parent.value).Some? && HasSize(t.entities[id].extents)
    ensures t.entities[id].parent.None? ==>
              && r.Success? && !r.value.1 && r.value.0.root == t.root
              && r.value.0.entities == t.entities[id := MoveUnlinked(t.entities[id], newPosition).0]
    ensures t.entities[id].parent.Some? ==> r == MoveEntity(t, t.entities[id].parent.value, id, newPosition)
  {
    var e := t.entities[id];
    if e.parent.None? then
      var moved := MoveUnlinked(e, newPosition);
      Success((Index(t.root, t.entities[id := moved.0]), moved.1))
    else MoveEntity(t, e.parent.value, id, newPosition)
  }

  /** Moving an entity no node lists keeps the invariant. */
  lemma MoveUnlinkedKeepsInv(t: Index, id: EntityId, newPosition: Vector)
    requires Inv(t) && id in t.entities && t.entities[id].parent.None?
    ensures Inv(Move(t, id, newPosition).value.0)
  {
    var m := MoveUnlinked(t.entities[id], newPosition).0;
    UnlistedUpdateKeepsInv(t, id, m);
  }

  /** Replacing the record of an entity no node lists by another unlinked, sized one keeps the invariant. */
  lemma UnlistedUpdateKeepsInv(t: Index, id: EntityId, e: Entity)
    requires Inv(t) && id in t.entities && t.entities[id].parent.None?
    requires e.parent.None? && HasSize(e.extents)
    ensures Inv(Index(t.root, t.entities[id := e]))
  {
    var r := Index(t.root, t.entities[id := e]);
    UnlinkedIsNowhere(t, id);
    forall q, x | x in EntitiesAt(r.root, q)
      ensures StoredAt(r, x, q)
    {
      assert StoredAt(t, x, q);
    }
  }

  // ---------------------------------------------------------------------
  // collideAABB and collide

  /**
    The `scanFunx` callback of `__collideAABB`: an entity other than
    `ignored` whose box has a corner of the query inside.
   */
  predicate Scan(t: Index, query: Box, ignored: Option<EntityId>, id: EntityId)
    ensures Scan(t, query, ignored, id) <==>
              id in t.entities && ignored != Some(id) && Boxes.CollideAabb(BoxOf(t, id), query) == Success(true)
  {
    && id in t.entities
    && ignored != Some(id)
    && Collides(BoxOf(t, id), query)
  }

  /**
    The loop of `__collideAABB` over the ancestors of the containing node,
    nearest first: the own lists of the nodes at c[..k-1] down to the
    root.
   */
  function AncestorsScan(n: Node, c: Path, k: nat, f: EntityId -> bool): bool
    requires k <= |c|
    decreases k
  {
    if k == 0 then false
    else
      var a := At(n, c[..k - 1]);
      (HasEntities(a) && AnyOf(Own(a), f)) || AncestorsScan(n, c, k - 1, f)
  }

  /**
    `collideAABB(aABB, ignored)`: false when the root does not contain the
    query; otherwise the subtree of the containing node, then the own
    lists of its ancestors, are searched for an entity the callback
    accepts. Falling off the end returns `undefined`, a falsy answer.
   */
  function CollideAabb(t: Index, query: Box, ignored: Option<EntityId>): (r: Result<bool>)
    requires Inv(t)
    ensures Dim(query) != Dim(t.root.box) <==> r == Failure(DimensionMismatch)
    ensures Dim(query) == Dim(t.root.box) && !Encloses(t.root.box, query) ==> r == Success(false)
  {
    if Dim(t.root.box) != Dim(query) then Failure(DimensionMismatch)
    else if !Encloses(t.root.box, query) then Success(false)
    else
      var c := ContainingNode(t.root, query);
      var scan := (id: EntityId) => Scan(t, query, ignored, id);
      Success(SomeEntities(At(t.root, c), scan) || AncestorsScan(t.root, c, |c|, scan))
  }

  /** `collide(entity)`: the entity's own box as the query, the entity itself ignored. */
  function Collide(t: Index, id: EntityId): (r: Result<bool>)
    requires Inv(t) && id in t.entities
    ensures Dim(BoxOf(t, id)) != Dim(t.root.box) <==> r.Failure?
  {
    CollideAabb(t, BoxOf(t, id), Some(id))
  }

  /** Following c and then q is looking up c + q. */
  lemma {:induction false} LookupAppend(n: Node, c: Path, q: Path)
    requires Lookup(n, c).Some?
    ensures Lookup(n, c + q) == Lookup(Lookup(n, c).value, q)
    decreases c
  {
    if c != [] {
      SplitPath(n, c);
      assert (c + q)[0] == c[0] && (c + q)[1..] == c[1..] + q;
      SplitPath(n, c + q);
      LookupAppend(Child(n, c[0]).value, c[1..], q);
    } else {
      assert c + q == q;
    }
  }

  /**
    The ancestors' loop over the first k prefixes of c finds a hit exactly
    when the own list of one of them has an accepted id.
   */
  lemma {:induction false} AncestorsScanExists(n: Node, c: Path, k: nat, f: EntityId -> bool)
    requires k <= |c|
    requires forall j :: 0 <= j <= |c| ==> Lookup(n, c[..j]).Some?
    ensures AncestorsScan(n, c, k, f) <==> exists j, id :: 0 <= j < k && id in EntitiesAt(n, c[..j]) && f(id)
    decreases k
  {
    if k > 0 {
      AncestorsScanExists(n, c, k - 1, f);
      var a := At(n, c[..k - 1]);
      assert EntitiesAt(n, c[..k - 1]) == Own(a);
      if HasEntities(a) && AnyOf(Own(a), f) {
        var m :| 0 <= m < |Own(a)| && f(Own(a)[m]);
        assert Own(a)[m] in EntitiesAt(n, c[..k - 1]);
      }
      if exists id :: id in EntitiesAt(n, c[..k - 1]) && f(id) {
        var id :| id in Own(a) && f(id);
        var m :| 0 <= m < |Own(a)| && Own(a)[m] == id;
        assert HasEntities(a) && AnyOf(Own(a), f);
      }
    }
  }

  /** Every prefix of a path that leads to a node leads to a node. */
  lemma {:induction false} PrefixesExist(n: Node, c: Path, j: nat)
    requires Lookup(n, c).Some? && j <= |c|
    ensures Lookup(n, c[..j]).Some?
    decreases c
  {
    if j > 0 {
      assert c[..j][0] == c[0] && c[..j][1..] == c[1..][..j - 1];
      PrefixesExist(Child(n, c[0]).value, c[1..], j - 1);
    }
  }

  /** A hit in the containing node's subtree is an accepted id listed below c. */
  lemma SubtreeHitSound(n: Node, c: Path, f: EntityId -> bool)
    requires Lookup(n, c).Some? && SomeEntities(At(n, c), f)
    ensures exists q, id :: c <= q && id in EntitiesAt(n, q) && f(id)
  {
    var a := Lookup(n, c).value;
    SomeEntitiesExists(a, f);
    assert HoldsMatch(a, f);
    var q, id :| id in EntitiesAt(a, q) && f(id);
    LookupAppend(n, c, q);
    assert id in EntitiesAt(n, c + q);
    assert c <= c + q;
  }

  /** A hit in the ancestors' loop is an accepted id listed above c. */
  lemma AncestorHitSound(n: Node, c: Path, f: EntityId -> bool)
    requires Lookup(n, c).Some? && AncestorsScan(n, c, |c|, f)
    ensures exists q, id :: q < c && id in EntitiesAt(n, q) && f(id)
  {
    forall j | 0 <= j <= |c|
      ensures Lookup(n, c[..j]).Some?
    {
      PrefixesExist(n, c, j);
    }
    AncestorsScanExists(n, c, |c|, f);
    var j, id :| 0 <= j < |c| && id in EntitiesAt(n, c[..j]) && f(id);
    assert c[..j] < c;
  }

  /**
    A true answer names a stored entity other than `ignored` whose box
    has a corner of the query inside, listed in the containing node's
    subtree or by one of its ancestors.
   */
  lemma CollideSound(t: Index, query: Box, ignored: Option<EntityId>)
    requires Inv(t) && CollideAabb(t, query, ignored) == Success(true)
    ensures exists q, id ::
              && id in EntitiesAt(t.root, q)
              && id in t.entities && ignored != Some(id)
              && Collides(BoxOf(t, id), query)
              && (ContainingNode(t.root, query) <= q || q < ContainingNode(t.root, query))
  {
    var c := ContainingNode(t.root, query);
    var scan := (id: EntityId) => Scan(t, query, ignored, id);
    var q: Path, id: EntityId;
    if SomeEntities(At(t.root, c), scan) {
      SubtreeHitSound(t.root, c, scan);
      q, id :| c <= q && id in EntitiesAt(t.root, q) && scan(id);
    } else {
      AncestorHitSound(t.root, c, scan);
      q, id :| q < c && id in EntitiesAt(t.root, q) && scan(id);
    }
    assert Scan(t, query, ignored, id);
  }

  /** `collide` answers true only for another stored entity whose box has a corner of this one's inside. */
  lemma CollideFindsOther(t: Index, id: EntityId)
    requires Inv(t) && id in t.entities && Collide(t, id) == Success(true)
    ensures exists q, x :: x in EntitiesAt(t.root, q) && x in t.entities && x != id && Collides(BoxOf(t, x), BoxOf(t, id))
  {
    CollideSound(t, BoxOf(t, id), Some(id));
  }

  /** Under the invariant no callback of the scan meets a box of another dimension. */
  lemma ScanNeverThrows(t: Index, query: Box, q: Path, id: EntityId)
    requires Inv(t) && id in EntitiesAt(t.root, q) && Dim(query) == Dim(t.root.box)
    ensures Boxes.CollideAabb(BoxOf(t, id), query).Success?
  {
    assert StoredAt(t, id, q);
    ShapedBelow(t.root, q);
  }
}
