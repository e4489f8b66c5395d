/**
  The split tree: a cell with a box, an optional list of entity ids and an
  optional array of child slots, slot i holding the node over partition i
  of the box.

  Parent links are replaced by paths. A node is named by the slot indices
  that lead to it from the root. Its parent is the path without the last
  index, and its depth is the path's length. Entities are named by ids.
  Their records (and their `parent` field) live in the index of
  `TreeIndex`.
 */
module SplitTree {
  import opened Outcomes
  import opened Bits
  import opened Vectors
  import opened Boxes
  import Spaces

  type EntityId = nat

  /** Slot indices from the root down to a node. */
  type Path = seq<nat>

  datatype Node = Node(box: Box, entities: Option<seq<EntityId>>, childs: Childs)

  /** The `childs` array: absent until first needed, then one optional slot per index. */
  datatype Childs = Undefined | Defined(slots: seq<Option<Node>>)

  /** Where `insert` left an entity: the new tree and the path of the node that lists it. */
  datatype Placement = Placement(node: Node, path: Path)

  // ---------------------------------------------------------------------
  // Reading a node

  /** The entity list, empty when it was never defined. */
  function Own(n: Node): seq<EntityId> {
    n.entities.GetOr([])
  }

  /** The child slots, none when the array was never defined. */
  function Slots(n: Node): seq<Option<Node>> {
    if n.childs.Defined? then n.childs.slots else []
  }

  /** `childs[i]`: the node in slot i, if any. */
  function Child(n: Node, i: nat): (r: Option<Node>)
    ensures r.Some? ==> r.value < n
    ensures r.Some? <==> i < |Slots(n)| && Slots(n)[i].Some?
  {
    if n.childs.Defined? && i < |n.childs.slots| then n.childs.slots[i] else None
  }

  /** `hasChild(i)`: the array is defined and slot i is not a hole. */
  predicate HasChild(n: Node, i: nat)
    ensures HasChild(n, i) <==> n.childs.Defined? && i < |n.childs.slots| && n.childs.slots[i].Some?
  {
    Child(n, i).Some?
  }

  /** `hasEntities`: the list is defined and lists something. */
  predicate HasEntities(n: Node)
    ensures HasEntities(n) <==> n.entities.Some? && n.entities.value != []
  {
    |Own(n)| > 0
  }

  /** `hasChilds`: the array is defined and some slot holds a node. */
  predicate HasChilds(n: Node)
    ensures HasChilds(n) <==> n.childs.Defined? && exists i :: 0 <= i < |n.childs.slots| && n.childs.slots[i].Some?
    ensures HasChilds(n) <==> exists i: nat :: HasChild(n, i)
  {
    SomeSlotHoldsChild(n);
    exists i :: 0 <= i < |Slots(n)| && HasChild(n, i)
  }

  /** `isLeaf`: no slot holds a child. */
  predicate IsLeaf(n: Node)
    ensures IsLeaf(n) <==> forall i: nat :: !HasChild(n, i)
  {
    SomeSlotHoldsChild(n);
    !HasChilds(n)
  }

  /** A child in some slot is a slot of the defined array holding a node. */
  lemma SomeSlotHoldsChild(n: Node)
    ensures (exists i :: 0 <= i < |Slots(n)| && HasChild(n, i)) <==>
            n.childs.Defined? && exists i :: 0 <= i < |n.childs.slots| && n.childs.slots[i].Some?
    ensures (exists i :: 0 <= i < |Slots(n)| && HasChild(n, i)) <==> exists i: nat :: HasChild(n, i)
  {
    if n.childs.Defined? && exists i :: 0 <= i < |n.childs.slots| && n.childs.slots[i].Some? {
      var i :| 0 <= i < |n.childs.slots| && n.childs.slots[i].Some?;
      assert HasChild(n, i);
    }
  }

  /** A node that `clean` keeps: it lists an entity or has a child. */
  predicate Occupied(n: Node) {
    HasEntities(n) || HasChilds(n)
  }

  /** The node at path p, if every slot on the way holds one. */
  function Lookup(n: Node, p: Path): Option<Node>
    decreases p
  {
    if p == [] then Some(n)
    else match Child(n, p[0])
      case None => None
      case Some(c) => Lookup(c, p[1..])
  }

  /** The own list of the node at p; empty when there is no such node. */
  function EntitiesAt(n: Node, p: Path): seq<EntityId> {
    match Lookup(n, p)
    case None => []
    case Some(m) => Own(m)
  }

  // ---------------------------------------------------------------------
  // Paths in place of parent links

  /** `isRoot`: no parent link, i.e. the path does not extend a parent path by a slot. */
  predicate IsRoot(p: Path)
    ensures IsRoot(p) <==> !exists q: Path, i: nat :: p == q + [i]
  {
    if p != [] then
      assert p == p[..|p| - 1] + [p[|p| - 1]];
      false
    else true
  }

  /** `parent` of a non-root node. */
  function Parent(p: Path): (r: Path)
    requires p != []
    ensures |r| == |p| - 1 && r + [p[|p| - 1]] == p
  {
    p[..|p| - 1]
  }

  /** `depth`: one more than the parent's, zero at the root. */
  function Depth(p: Path): (d: nat)
    ensures d == |p|
    decreases |p|
  {
    if IsRoot(p) then 0 else Depth(Parent(p)) + 1
  }

  /** `root`: follow parent links while there is one; every node reaches the root. */
  function RootOf(p: Path): (r: Path)
    ensures r == [] && IsRoot(r)
    decreases |p|
  {
    if IsRoot(p) then p else RootOf(Parent(p))
  }

  // ---------------------------------------------------------------------
  // Building nodes

  /** `new SplitTree(space)`: a root over the space's box, with no lists yet. */
  function NewRoot(s: Spaces.Space): (n: Node)
    ensures n.box == Spaces.RootBox(s)
    ensures forall q :: Lookup(n, q).Some? <==> q == []
    ensures forall q :: EntitiesAt(n, q) == []
  {
    Node(Spaces.RootBox(s), None, Undefined)
  }

  /** A node over `box` with neither list defined. */
  function Empty(box: Box): (n: Node)
    ensures !Occupied(n)
  {
    Node(box, None, Undefined)
  }

  /**
    `new SplitTree(null, {parent, direction})`: the child for slot i takes
    partition i of the parent's box, which is the i-th half.
   */
  function NewChild(parent: Box, i: nat): (n: Node)
    requires i < PartitionCount(parent)
    ensures n.box == Half(parent, i) && !Occupied(n)
    ensures Ordered(parent) ==> Encloses(parent, n.box)
  {
    PartitionIsCopy(parent, i);
    PartitionShape(parent, i);
    Empty(Partition(parent, i))
  }

  /**
    `childs[i] = c` on a JavaScript array: assigning past the end grows the
    array, leaving empty slots in between.
   */
  function Assign(slots: seq<Option<Node>>, i: nat, c: Node): (r: seq<Option<Node>>)
    ensures |r| == Max(|slots|, i + 1)
    ensures r[i] == Some(c)
    ensures forall j :: 0 <= j < |r| && j != i ==> r[j] == (if j < |slots| then slots[j] else None)
  {
    if i < |slots| then slots[i := Some(c)]
    else slots + seq(i - |slots|, _ => None) + [Some(c)]
  }

  /** Store c in slot i, defining the array if needed; everything else stays. */
  function SetChild(n: Node, i: nat, c: Node): (r: Node)
    ensures r.box == n.box && r.entities == n.entities && r.childs.Defined?
    ensures forall j :: Child(r, j) == if j == i then Some(c) else Child(n, j)
  {
    n.(childs := Defined(Assign(Slots(n), i, c)))
  }

  /** `ensureEntitiesIsDefined`: an absent list becomes empty; a present one is kept. */
  function EnsureEntitiesIsDefined(n: Node): (r: Node)
    ensures r.entities.Some? && Own(r) == Own(n)
    ensures r.box == n.box && r.childs == n.childs
    ensures n.entities.Some? ==> r == n
  {
    if n.entities.None? then n.(entities := Some([])) else n
  }

  /** `ensureChildsIsDefined`: an absent array becomes empty; a present one is kept. */
  function EnsureChildsIsDefined(n: Node): (r: Node)
    ensures r.childs.Defined? && forall j :: Child(r, j) == Child(n, j)
    ensures r.box == n.box && r.entities == n.entities
    ensures n.childs.Defined? ==> r == n
  {
    if n.childs.Undefined? then n.(childs := Defined([])) else n
  }

  /** `ensureChildIsDefined(i)`: an empty slot i receives a new child over partition i. */
  function EnsureChildIsDefined(n: Node, i: nat): (r: Node)
    requires i < PartitionCount(n.box)
    ensures HasChild(r, i) && r.box == n.box && r.entities == n.entities
    ensures HasChild(n, i) ==> r == n
    ensures !HasChild(n, i) ==> Child(r, i) == Some(NewChild(n.box, i))
    ensures forall j :: j != i ==> Child(r, j) == Child(n, j)
  {
    if HasChild(n, i) then n
    else SetChild(EnsureChildsIsDefined(n), i, NewChild(n.box, i))
  }

  /** `entities.push(id)`, after `ensureEntitiesIsDefined`. */
  function Push(n: Node, id: EntityId): (r: Node)
    ensures Own(r) == Own(n) + [id] && HasEntities(r)
    ensures r.box == n.box && r.childs == n.childs
  {
    var m := EnsureEntitiesIsDefined(n);
    m.(entities := Some(Own(m) + [id]))
  }

  // ---------------------------------------------------------------------
  // Where an entity belongs

  /** The reduce of `containingPartitionIndex` from index `from` on. */
  function FirstEnclosing(parts: seq<Box>, b: Box, from: nat): (r: int)
    requires from <= |parts|
    ensures r == -1 || from <= r < |parts|
    ensures r == -1 <==> forall j :: from <= j < |parts| ==> !Encloses(parts[j], b)
    ensures r >= 0 ==> Encloses(parts[r], b) && forall j :: from <= j < r ==> !Encloses(parts[j], b)
    decreases |parts| - from
  {
    if from == |parts| then -1
    else if Encloses(parts[from], b) then from
    else FirstEnclosing(parts, b, from + 1)
  }

  /**
    `containingPartitionIndex`: the least partition index whose box
    contains b, or -1 (`INDEX_NOT_FOUND`). `containsAABB` would throw on a
    box of another dimension, which callers rule out first.
   */
  function ContainingPartitionIndex(cell: Box, b: Box): (r: int)
    requires Dim(b) == Dim(cell)
    ensures -1 <= r < PartitionCount(cell)
    ensures r == -1 <==> forall j :: 0 <= j < PartitionCount(cell) ==> !Encloses(Half(cell, j), b)
    ensures r >= 0 ==> Encloses(Half(cell, r), b)
    ensures r >= 0 ==> forall j :: 0 <= j < r ==> !Encloses(Half(cell, j), b)
  {
    var r := FirstEnclosing(Partitions(cell), b, 0);
    FirstEnclosingHalf(cell, b, r);
    r
  }

  /** The reduce over `partitions` read back in terms of the halves. */
  lemma FirstEnclosingHalf(cell: Box, b: Box, r: int)
    requires r == FirstEnclosing(Partitions(cell), b, 0)
    ensures r == -1 <==> forall j :: 0 <= j < PartitionCount(cell) ==> !Encloses(Half(cell, j), b)
    ensures r >= 0 ==> Encloses(Half(cell, r), b)
    ensures r >= 0 ==> forall j :: 0 <= j < r ==> !Encloses(Half(cell, j), b)
  {
    PartitionsEqualHalves(cell);
    var parts := Partitions(cell);
    assert |parts| == PartitionCount(cell);
    if r >= 0 {
      assert parts[r] == Half(cell, r);
      forall j | 0 <= j < r
        ensures !Encloses(Half(cell, j), b)
      {
        assert parts[j] == Half(cell, j);
      }
    } else {
      forall j | 0 <= j < PartitionCount(cell)
        ensures !Encloses(Half(cell, j), b)
      {
        assert parts[j] == Half(cell, j);
      }
    }
  }

  /** b is stored at a node over `cell`: the cell contains it and no partition does. */
  predicate Fits(cell: Box, b: Box) {
    && Encloses(cell, b)
    && ContainingPartitionIndex(cell, b) == -1
  }

  /** A box whose min and max differ: it has positive width on some axis. */
  predicate Solid(b: Box) {
    b.min != b.max
  }

  function Abs(x: real): real {
    if x < 0.0 then -x else x
  }

  /** An axis on which a solid box has positive width. */
  ghost function SplitAxis(b: Box): (k: nat)
    requires Solid(b)
    ensures k < Dim(b) && b.min[k] != b.max[k]
  {
    var k :| 0 <= k < Dim(b) && b.min[k] != b.max[k]; k
  }

  /** The width of box b on axis k. */
  function Width(b: Box, k: nat): real
    requires k < Dim(b)
  {
    b.max[k] - b.min[k]
  }

  /** How many widths e fit in |w|, rounded down. */
  ghost function Steps(w: real, e: real): nat
    requires e > 0.0
  {
    var f := (Abs(w) / e).Floor;
    if f < 0 then 0 else f
  }

  /**
    How many times the cell can still be halved around b: the cell's width
    on b's split axis over b's width there, rounded down.
   */
  ghost function Measure(cell: Box, b: Box): nat
    requires Solid(b) && Dim(cell) == Dim(b)
  {
    var k := SplitAxis(b);
    Steps(Width(cell, k), Abs(Width(b, k)))
  }

  /** Halving y >= 1 lowers the floor. */
  lemma FloorHalves(y: real)
    requires y >= 1.0
    ensures y.Floor < (2.0 * y).Floor
  {
    var f := y.Floor;
    assert f >= 1;
    assert 2.0 * y >= (2 * f) as real;
  }

  /** A width w >= e > 0, halved from wc, takes fewer steps than wc. */
  lemma HalvedSteps(wc: real, w: real, e: real)
    requires e > 0.0 && w == wc / 2.0 && w >= e
    ensures Steps(w, e) < Steps(wc, e)
  {
    var y := w / e;
    assert y >= 1.0 by {
      assert w / e >= e / e;
    }
    assert Abs(wc) / e == 2.0 * y;
    FloorHalves(y);
  }

  /** Moving into a partition that still contains b lowers the measure. */
  lemma Descends(cell: Box, b: Box, i: nat)
    requires Solid(b) && Dim(cell) == Dim(b)
    requires i < PartitionCount(cell) && Encloses(Half(cell, i), b)
    ensures Measure(Half(cell, i), b) < Measure(cell, b)
  {
    var k := SplitAxis(b);
    var p := Half(cell, i);
    HalfWidth(cell, i, k);
    assert p.min[k] <= b.min[k] <= p.max[k] && p.min[k] <= b.max[k] <= p.max[k];
    HalvedSteps(Width(cell, k), Width(p, k), Abs(Width(b, k)));
  }

  /** The path [i] + p through a freshly set slot i leads into the stored child. */
  lemma LookupSetChild(n: Node, i: nat, c: Node, p: Path)
    ensures Lookup(SetChild(n, i, c), [i] + p) == Lookup(c, p)
  {
    assert ([i] + p)[0] == i && ([i] + p)[1..] == p;
  }

  /**
    `insert` into a node that has just been created over `cell`: such a node
    has no children, so the entity goes down a chain of new children until
    no partition contains it.
   */
  function Grow(cell: Box, id: EntityId, b: Box): (r: Placement)
    requires Solid(b) && Encloses(cell, b)
    ensures r.node.box == cell
    decreases Measure(cell, b)
  {
    var k := ContainingPartitionIndex(cell, b);
    if k == -1 then Placement(Push(Empty(cell), id), [])
    else
      var i := k as nat;
      Descends(cell, b, i);
      var sub := Grow(Half(cell, i), id, b);
      Placement(SetChild(Empty(cell), i, sub.node), [i] + sub.path)
  }

  /**
    `insert`: throws `OutOfBoundInsert` unless the node's box contains b
    (and `DimensionMismatch` from `containsAABB` for another dimension);
    appends the id to this node's list when no partition contains b, and
    otherwise goes on in the child of the first partition that does,
    creating it first if the slot is empty.

    A box with min == max never stops descending: every partition around
    a point still contains it. The source loops; the model requires a
    solid box.
   */
  function Insert(n: Node, id: EntityId, b: Box): (r: Result<Placement>)
    requires Solid(b)
    ensures Dim(b) != Dim(n.box) ==> r == Failure(DimensionMismatch)
    ensures Dim(b) == Dim(n.box) && !Encloses(n.box, b) ==> r == Failure(OutOfBoundInsert)
    ensures r.Failure? ==> r.error == DimensionMismatch || r.error == OutOfBoundInsert
    ensures r.Success? ==> r.value.node.box == n.box
    decreases n
  {
    if Dim(b) != Dim(n.box) then Failure(DimensionMismatch)
    else if !Encloses(n.box, b) then Failure(OutOfBoundInsert)
    else
      var k := ContainingPartitionIndex(n.box, b);
      if k == -1 then Success(Placement(Push(n, id), []))
      else
        var i := k as nat;
        match Child(n, i)
        case Some(c) =>
          var sub :- Insert(c, id, b);
          Success(Placement(SetChild(n, i, sub.node), [i] + sub.path))
        case None =>
          var sub := Grow(Half(n.box, i), id, b);
          Success(Placement(SetChild(n, i, sub.node), [i] + sub.path))
  }

  // ---------------------------------------------------------------------
  // Removing an entity

  /** `indexOf`: the first position of x, or -1. */
  function IndexOf<T(==)>(s: seq<T>, x: T): (r: int)
    ensures -1 <= r < |s|
    ensures r == -1 <==> x !in s
    ensures r >= 0 ==> s[r] == x && forall j :: 0 <= j < r ==> s[j] != x
  {
    if s == [] then -1
    else if s[0] == x then 0
    else
      var k := IndexOf(s[1..], x);
      if k == -1 then -1 else k + 1
  }

  /** `delete entities[entities.indexOf(x)]`: one occurrence goes, the rest keep their order. */
  function Remove(s: seq<EntityId>, x: EntityId): (r: seq<EntityId>)
    ensures multiset(r) == multiset(s) - multiset{x}
    ensures x in s ==> |r| == |s| - 1
    ensures x !in s ==> r == s
  {
    var k := IndexOf(s, x);
    if k == -1 then s
    else
      assert s == s[..k] + [s[k]] + s[k + 1..];
      s[..k] + s[k + 1..]
  }

  /**
    `clean` run on the child in slot i: the child deletes itself from its
    parent's array when it lists no entity and has no child. The root has
    no parent and is never cleaned.
   */
  function Clean(n: Node, i: nat): (r: Node)
    requires HasChild(n, i)
    ensures r.box == n.box && r.entities == n.entities
    ensures forall j :: j != i ==> Child(r, j) == Child(n, j)
    ensures Child(r, i) == if Occupied(Child(n, i).value) then Child(n, i) else None
  {
    if Occupied(Child(n, i).value) then n
    else n.(childs := Defined(Slots(n)[i := None]))
  }

  /**
    `detachEntity` on the node at path p: `assertHasEntity` throws
    `EntityNotFound` unless that node lists the id; otherwise the id is
    removed from its list and `clean` runs from that node upwards, each
    emptied non-root node deleting itself from its parent.
   */
  function Detach(n: Node, p: Path, id: EntityId): (r: Result<Node>)
    requires Lookup(n, p).Some?
    ensures r.Failure? <==> id !in EntitiesAt(n, p)
    ensures r.Failure? ==> r.error == EntityNotFound
    ensures r.Success? ==> r.value.box == n.box
    decreases p
  {
    if p == [] then
      if id !in Own(n) then Failure(EntityNotFound)
      else Success(n.(entities := Some(Remove(Own(n), id))))
    else
      var i := p[0];
      var c := Child(n, i).value;
      var c' :- Detach(c, p[1..], id);
      Success(Clean(SetChild(n, i, c'), i))
  }

  /** `assertHasEntity`: throws `EntityNotFound` unless the list holds the id. */
  function AssertHasEntity(n: Node, id: EntityId): (r: Result<()>)
    ensures r.Success? <==> id in Own(n)
    ensures r.Failure? ==> r.error == EntityNotFound
  {
    if n.entities.None? || IndexOf(n.entities.value, id) == -1 then Failure(EntityNotFound)
    else Success(())
  }

  // ---------------------------------------------------------------------
  // Finding the node for a query box

  /** The reduce of `containingChild` over the slots from `from` on. */
  function ContainingChildFrom(n: Node, b: Box, from: nat): (r: Option<nat>)
    requires from <= |Slots(n)|
    ensures r.Some? ==> from <= r.value && HasChild(n, r.value) && Encloses(Child(n, r.value).value.box, b)
    ensures r.Some? ==> forall j :: from <= j < r.value && HasChild(n, j) ==> !Encloses(Child(n, j).value.box, b)
    ensures r.None? ==> forall j :: from <= j < |Slots(n)| && HasChild(n, j) ==> !Encloses(Child(n, j).value.box, b)
    decreases |Slots(n)| - from
  {
    if from == |Slots(n)| then None
    else if HasChild(n, from) && Encloses(Child(n, from).value.box, b) then Some(from)
    else ContainingChildFrom(n, b, from + 1)
  }

  /**
    `containingChild`: the first child, in slot order, whose box contains
    b; nothing when there are no children. A child of another dimension
    would make `containsAABB` throw; in a shaped tree there is none.
   */
  function ContainingChild(n: Node, b: Box): (r: Option<nat>)
    ensures r.Some? ==> HasChild(n, r.value) && Encloses(Child(n, r.value).value.box, b)
    ensures r.Some? ==> forall j: nat :: j < r.value && HasChild(n, j) ==> !Encloses(Child(n, j).value.box, b)
    ensures r.None? ==> forall j: nat :: HasChild(n, j) ==> !Encloses(Child(n, j).value.box, b)
  {
    if HasChilds(n) then ContainingChildFrom(n, b, 0)
    else
      assert forall j: nat :: !HasChild(n, j);
      None
  }

  /** Following slot i and then q is looking up [i] + q. */
  lemma LookupChild(n: Node, i: nat, q: Path)
    requires HasChild(n, i)
    ensures Lookup(n, [i] + q) == Lookup(Child(n, i).value, q)
  {
    assert ([i] + q)[0] == i && ([i] + q)[1..] == q;
  }

  /**
    `containingNode`: from a node containing b, follow the containing
    child while there is one. Called on a node that does not contain b it
    throws a plain error; callers check the root first.
   */
  function ContainingNode(n: Node, b: Box): (p: Path)
    requires Encloses(n.box, b)
    ensures Lookup(n, p).Some? && Encloses(Lookup(n, p).value.box, b)
    ensures ContainingChild(Lookup(n, p).value, b).None?
    ensures ContainingSteps(n, b, p)
    decreases n
  {
    match ContainingChild(n, b)
    case None => []
    case Some(i) =>
      var c := Child(n, i).value;
      var q := ContainingNode(c, b);
      LookupChild(n, i, q);
      ContainingStepsCons(n, b, i, q);
      [i] + q
  }

  /** Each step of p, from the node it has reached, goes to the first containing child. */
  predicate ContainingSteps(n: Node, b: Box, p: Path) {
    forall k :: 0 <= k < |p| ==>
      Lookup(n, p[..k]).Some? && ContainingChild(Lookup(n, p[..k]).value, b) == Some(p[k])
  }

  /** A first containing step followed by containing steps from that child is containing steps. */
  lemma ContainingStepsCons(n: Node, b: Box, i: nat, q: Path)
    requires ContainingChild(n, b) == Some(i)
    requires ContainingSteps(Child(n, i).value, b, q)
    ensures ContainingSteps(n, b, [i] + q)
  {
    var p := [i] + q;
    forall k | 0 <= k < |p|
      ensures Lookup(n, p[..k]).Some? && ContainingChild(Lookup(n, p[..k]).value, b) == Some(p[k])
    {
      if k > 0 {
        assert p[..k] == [i] + q[..k - 1];
        LookupChild(n, i, q[..k - 1]);
      }
    }
  }

  /**
    `directionOf`: the first slot holding `c`, or -1; a node without a
    child array throws `BranchFunctionOnLeaf`.
   */
  function DirectionOf(n: Node, c: Node): (r: Result<int>)
    ensures r.Failure? <==> n.childs.Undefined?
    ensures r.Failure? ==> r.error == BranchFunctionOnLeaf
    ensures r.Success? ==> (r.value == -1 <==> forall j: nat :: Child(n, j) != Some(c))
    ensures r.Success? && r.value >= 0 ==> Child(n, r.value) == Some(c)
    ensures r.Success? && r.value >= 0 ==> forall j: nat :: j < r.value ==> Child(n, j) != Some(c)
  {
    if n.childs.Undefined? then Failure(BranchFunctionOnLeaf)
    else
      var k := IndexOf(n.childs.slots, Some(c));
      assert k == -1 ==> forall j: nat :: Child(n, j) != Some(c) by {
        if k == -1 {
          forall j: nat ensures Child(n, j) != Some(c) {
            if j < |n.childs.slots| {
              assert n.childs.slots[j] in n.childs.slots;
            }
          }
        }
      }
      assert k >= 0 ==> Child(n, k) == Some(c);
      Success(k)
  }

  // ---------------------------------------------------------------------
  // Structural invariants

  /**
    The child in slot i is over partition i of its parent's box, which is
    the i-th half.
   */
  ghost predicate Shaped(n: Node)
    decreases n
  {
    forall i: nat :: HasChild(n, i) ==>
         && i < PartitionCount(n.box)
         && Child(n, i).value.box == Half(n.box, i)
         && Shaped(Child(n, i).value)
  }

  /** No node below the root is empty: `clean` has removed every such node. */
  ghost predicate Pruned(n: Node)
    decreases n
  {
    forall i: nat :: HasChild(n, i) ==> Occupied(Child(n, i).value) && Pruned(Child(n, i).value)
  }
}
