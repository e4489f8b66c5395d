/**
  Walking a split tree: `forEach` and `some` over nodes, and
  `someEntities` over the entity lists.

  `Visit` names the nodes of a tree, as paths, in the order `forEach`
  reaches them: the node itself, then the subtree of each child in slot
  order (holes are skipped, as `Array.prototype.forEach` skips them). The
  lemmas show that `Visit` lists every node exactly once, in pre-order,
  and that `forEach`, `some` and `someEntities` are a fold, a stopping
  scan and an existence test over it.
 */
module Traversal {
  import opened Outcomes
  import opened SplitTree

  // ---------------------------------------------------------------------
  // Paths in pre-order

  /** The paths of a child's subtree, seen from the parent through slot i. */
  function Prefixed(i: nat, ps: seq<Path>): (r: seq<Path>)
    ensures |r| == |ps|
    ensures forall k :: 0 <= k < |r| ==> r[k] == [i] + ps[k]
  {
    seq(|ps|, k requires 0 <= k < |ps| => [i] + ps[k])
  }

  /** Pre-order: p is a proper prefix of q, or p turns into a lower slot where they part. */
  predicate Before(p: Path, q: Path)
    decreases |p|
  {
    if p == [] then q != []
    else q != [] && (p[0] < q[0] || (p[0] == q[0] && Before(p[1..], q[1..])))
  }

  /** Every path in ps comes before every later one. */
  ghost predicate Sorted(ps: seq<Path>) {
    forall a, b :: 0 <= a < b < |ps| ==> Before(ps[a], ps[b])
  }

  /** The node's own path, then every child's subtree in slot order. */
  function Visit(n: Node): seq<Path>
    decreases n, 1
  {
    [[]] + VisitFrom(n, 0)
  }

  /** The subtrees of the children in slots i and above. */
  function VisitFrom(n: Node, i: nat): seq<Path>
    requires i <= |Slots(n)|
    decreases n, 0, |Slots(n)| - i
  {
    if i == |Slots(n)| then []
    else
      var here := match Child(n, i)
        case None => []
        case Some(c) => Prefixed(i, Visit(c));
      here + VisitFrom(n, i + 1)
  }

  /** Looking up [i] + q goes through slot i. */
  lemma LookupPrefixed(n: Node, i: nat, q: Path)
    ensures Lookup(n, [i] + q) == match Child(n, i) case None => None case Some(c) => Lookup(c, q)
  {
    assert ([i] + q)[0] == i && ([i] + q)[1..] == q;
  }

  /** Every path `Visit` lists leads to a node. */
  lemma {:induction false} VisitSound(n: Node)
    ensures forall k :: 0 <= k < |Visit(n)| ==> Lookup(n, Visit(n)[k]).Some?
    decreases n, 1
  {
    VisitFromSound(n, 0);
  }

  /** Every path `VisitFrom` lists leads to a node, through a slot at least i. */
  lemma {:induction false} VisitFromSound(n: Node, i: nat)
    requires i <= |Slots(n)|
    ensures forall k :: 0 <= k < |VisitFrom(n, i)| ==>
              VisitFrom(n, i)[k] != [] && VisitFrom(n, i)[k][0] >= i && Lookup(n, VisitFrom(n, i)[k]).Some?
    decreases n, 0, |Slots(n)| - i
  {
    if i < |Slots(n)| {
      VisitFromSound(n, i + 1);
      match Child(n, i)
      case None =>
      case Some(c) =>
        VisitSound(c);
        forall k | 0 <= k < |Visit(c)|
          ensures Lookup(n, [i] + Visit(c)[k]).Some?
        {
          LookupPrefixed(n, i, Visit(c)[k]);
        }
    }
  }

  /** Every node of the tree is listed by `Visit`. */
  lemma {:induction false} VisitComplete(n: Node, q: Path)
    requires Lookup(n, q).Some?
    ensures q in Visit(n)
    decreases n, 1
  {
    if q != [] {
      VisitFromComplete(n, 0, q);
    }
  }

  /** Every node below slot i or a later one is listed by `VisitFrom`. */
  lemma {:induction false} VisitFromComplete(n: Node, i: nat, q: Path)
    requires i <= |Slots(n)|
    requires q != [] && q[0] >= i && Lookup(n, q).Some?
    ensures q in VisitFrom(n, i)
    decreases n, 0, |Slots(n)| - i
  {
    assert q == [q[0]] + q[1..];
    LookupPrefixed(n, q[0], q[1..]);
    if q[0] == i {
      var c := Child(n, i).value;
      VisitComplete(c, q[1..]);
      var k :| 0 <= k < |Visit(c)| && Visit(c)[k] == q[1..];
      assert Prefixed(i, Visit(c))[k] == q;
    } else {
      VisitFromComplete(n, i + 1, q);
    }
  }

  /** Putting the same slot in front keeps the order. */
  lemma BeforePrefixed(i: nat, p: Path, q: Path)
    ensures Before([i] + p, [i] + q) == Before(p, q)
  {
    assert ([i] + p)[1..] == p && ([i] + q)[1..] == q;
  }

  /** No path comes before itself: `Visit` lists no node twice. */
  lemma {:induction false} BeforeIrreflexive(p: Path)
    ensures !Before(p, p)
    decreases |p|
  {
    if p != [] {
      BeforeIrreflexive(p[1..]);
    }
  }

  /** `Visit` lists a node before its descendants and siblings in slot order. */
  lemma {:induction false} VisitSorted(n: Node)
    ensures Sorted(Visit(n))
    decreases n, 1
  {
    VisitFromSorted(n, 0);
    VisitFromSound(n, 0);
  }

  /** Two sorted runs, every path of the first before every path of the second, make a sorted run. */
  lemma SortedConcat(xs: seq<Path>, ys: seq<Path>)
    requires Sorted(xs) && Sorted(ys)
    requires forall a, b :: 0 <= a < |xs| && 0 <= b < |ys| ==> Before(xs[a], ys[b])
    ensures Sorted(xs + ys)
  {
    var zs := xs + ys;
    forall a, b | 0 <= a < b < |zs|
      ensures Before(zs[a], zs[b])
    {
      if b < |xs| {
        assert zs[a] == xs[a] && zs[b] == xs[b];
      } else if a < |xs| {
        assert zs[a] == xs[a] && zs[b] == ys[b - |xs|];
      } else {
        assert zs[a] == ys[a - |xs|] && zs[b] == ys[b - |xs|];
      }
    }
  }

  /** Putting slot i in front of every path of a sorted run keeps it sorted. */
  lemma PrefixedSorted(i: nat, ps: seq<Path>)
    requires Sorted(ps)
    ensures Sorted(Prefixed(i, ps))
  {
    var here := Prefixed(i, ps);
    forall a, b | 0 <= a < b < |here|
      ensures Before(here[a], here[b])
    {
      BeforePrefixed(i, ps[a], ps[b]);
    }
  }

  /** Paths through slot i come before paths through later slots. */
  lemma PrefixedBeforeLater(i: nat, ps: seq<Path>, rest: seq<Path>)
    requires forall k :: 0 <= k < |rest| ==> rest[k] != [] && rest[k][0] > i
    ensures forall a, b :: 0 <= a < |ps| && 0 <= b < |rest| ==> Before(Prefixed(i, ps)[a], rest[b])
  {
    forall a, b | 0 <= a < |ps| && 0 <= b < |rest|
      ensures Before(Prefixed(i, ps)[a], rest[b])
    {
      var p := Prefixed(i, ps)[a];
      assert p == [i] + ps[a] && p[0] == i;
    }
  }

  /** The subtrees from slot i on are listed in pre-order. */
  lemma {:induction false} VisitFromSorted(n: Node, i: nat)
    requires i <= |Slots(n)|
    ensures Sorted(VisitFrom(n, i))
    decreases n, 0, |Slots(n)| - i
  {
    if i < |Slots(n)| {
      var rest := VisitFrom(n, i + 1);
      VisitFromSorted(n, i + 1);
      VisitFromSound(n, i + 1);
      match Child(n, i)
      case None =>
        assert VisitFrom(n, i) == [] + rest;
      case Some(c) =>
        var ps := Visit(c);
        assert VisitFrom(n, i) == Prefixed(i, ps) + rest;
        VisitSorted(c);
        PrefixedSorted(i, ps);
        PrefixedBeforeLater(i, ps, rest);
        SortedConcat(Prefixed(i, ps), rest);
    }
  }

  // ---------------------------------------------------------------------
  // forEach

  /**
    `forEach(func)`: func runs on the node, then `forEach` runs on every
    child in slot order. The effect of func is the state it threads.
   */
  function ForEach<S>(n: Node, f: (S, Node) -> S, s: S): S
    decreases n, 1
  {
    ForEachFrom(n, f, f(s, n), 0)
  }

  /** `childs.forEach(child => child.forEach(func))` from slot i on. */
  function ForEachFrom<S>(n: Node, f: (S, Node) -> S, s: S, i: nat): S
    requires i <= |Slots(n)|
    decreases n, 0, |Slots(n)| - i
  {
    if i == |Slots(n)| then s
    else
      var s' := match Child(n, i)
        case None => s
        case Some(c) => ForEach(c, f, s);
      ForEachFrom(n, f, s', i + 1)
  }

  /** The node at p, when there is one, else the root. */
  function At(n: Node, p: Path): Node {
    Lookup(n, p).GetOr(n)
  }

  /** f applied to the nodes at the listed paths, left to right. */
  function FoldPaths<S>(n: Node, ps: seq<Path>, f: (S, Node) -> S, s: S): S
    decreases |ps|
  {
    if ps == [] then s else FoldPaths(n, ps[1..], f, f(s, At(n, ps[0])))
  }

  /** Folding over a concatenation folds over the first part, then the second. */
  lemma {:induction false} FoldPathsAppend<S>(n: Node, ps: seq<Path>, qs: seq<Path>, f: (S, Node) -> S, s: S)
    ensures FoldPaths(n, ps + qs, f, s) == FoldPaths(n, qs, f, FoldPaths(n, ps, f, s))
    decreases |ps|
  {
    if ps == [] {
      assert ps + qs == qs;
    } else {
      assert (ps + qs)[0] == ps[0] && (ps + qs)[1..] == ps[1..] + qs;
      FoldPathsAppend(n, ps[1..], qs, f, f(s, At(n, ps[0])));
    }
  }

  /** Folding over the paths of child i from the parent is folding over the child's own paths. */
  lemma {:induction false} FoldPathsPrefixed<S>(n: Node, i: nat, ps: seq<Path>, f: (S, Node) -> S, s: S)
    requires HasChild(n, i)
    requires forall k :: 0 <= k < |ps| ==> Lookup(Child(n, i).value, ps[k]).Some?
    ensures FoldPaths(n, Prefixed(i, ps), f, s) == FoldPaths(Child(n, i).value, ps, f, s)
    decreases |ps|
  {
    var c := Child(n, i).value;
    if ps != [] {
      LookupPrefixed(n, i, ps[0]);
      assert At(n, [i] + ps[0]) == At(c, ps[0]);
      assert Prefixed(i, ps)[1..] == Prefixed(i, ps[1..]);
      FoldPathsPrefixed(n, i, ps[1..], f, f(s, At(c, ps[0])));
    }
  }

  /** `forEach` hands func the nodes in the order `Visit` lists them. */
  lemma {:induction false} ForEachFollowsVisit<S>(n: Node, f: (S, Node) -> S, s: S)
    ensures ForEach(n, f, s) == FoldPaths(n, Visit(n), f, s)
    decreases n, 1
  {
    assert Visit(n)[1..] == VisitFrom(n, 0);
    assert At(n, []) == n;
    ForEachFromFollowsVisit(n, f, f(s, n), 0);
  }

  /** The slots from i on hand func their nodes in the order `VisitFrom` lists them. */
  lemma {:induction false} ForEachFromFollowsVisit<S>(n: Node, f: (S, Node) -> S, s: S, i: nat)
    requires i <= |Slots(n)|
    ensures ForEachFrom(n, f, s, i) == FoldPaths(n, VisitFrom(n, i), f, s)
    decreases n, 0, |Slots(n)| - i
  {
    if i < |Slots(n)| {
      match Child(n, i)
      case None =>
        assert VisitFrom(n, i) == VisitFrom(n, i + 1);
        ForEachFromFollowsVisit(n, f, s, i + 1);
      case Some(c) =>
        var ps := Visit(c);
        var rest := VisitFrom(n, i + 1);
        var mid := ForEach(c, f, s);
        assert VisitFrom(n, i) == Prefixed(i, ps) + rest;
        assert ForEachFrom(n, f, s, i) == ForEachFrom(n, f, mid, i + 1);
        ForEachFollowsVisit(c, f, s);
        VisitSound(c);
        FoldPathsPrefixed(n, i, ps, f, s);
        assert FoldPaths(n, Prefixed(i, ps), f, s) == mid;
        FoldPathsAppend(n, Prefixed(i, ps), rest, f, s);
        ForEachFromFollowsVisit(n, f, mid, i + 1);
    }
  }

  // ---------------------------------------------------------------------
  // some

  /** func holds at the node at p. */
  predicate Hit(n: Node, f: Node -> bool, p: Path) {
    Lookup(n, p).Some? && f(Lookup(n, p).value)
  }

  /**
    `some(func)`: func on the node; on a miss, `childs.some(child =>
    child.some(func))`. Alongside the answer, the paths of the nodes func
    was called on, in call order.
   */
  function SomeScan(n: Node, f: Node -> bool): (r: (bool, seq<Path>))
    decreases n, 1
  {
    if f(n) then (true, [[]])
    else
      var t := SomeScanFrom(n, f, 0);
      (t.0, [[]] + t.1)
  }

  /** `childs.some(child => child.some(func))` from slot i on. */
  function SomeScanFrom(n: Node, f: Node -> bool, i: nat): (r: (bool, seq<Path>))
    requires i <= |Slots(n)|
    decreases n, 0, |Slots(n)| - i
  {
    if i == |Slots(n)| then (false, [])
    else
      match Child(n, i)
      case None => SomeScanFrom(n, f, i + 1)
      case Some(c) =>
        var t := SomeScan(c, f);
        if t.0 then (true, Prefixed(i, t.1))
        else
          var u := SomeScanFrom(n, f, i + 1);
          (u.0, Prefixed(i, t.1) + u.1)
  }

  /** The answer `some(func)` gives. */
  function AnyNode(n: Node, f: Node -> bool): bool {
    SomeScan(n, f).0
  }

  /**
    A scan result r over the paths `all`: the paths of the calls are a
    prefix of `all`, every call but the last misses, the answer is whether
    the last call hit, and a scan that found nothing called every path.
   */
  predicate ScanShape(n: Node, f: Node -> bool, r: (bool, seq<Path>), all: seq<Path>) {
    && |r.1| <= |all| && r.1 == all[..|r.1|]
    && (forall k :: 0 <= k < |r.1| - 1 ==> !Hit(n, f, r.1[k]))
    && (r.0 <==> |r.1| > 0 && Hit(n, f, r.1[|r.1| - 1]))
    && (!r.0 ==> |r.1| == |all|)
  }

  /** A scan of child i, seen from the parent through slot i. */
  lemma ScanShapePrefixed(n: Node, f: Node -> bool, i: nat, t: (bool, seq<Path>), all: seq<Path>)
    requires HasChild(n, i) && ScanShape(Child(n, i).value, f, t, all)
    ensures ScanShape(n, f, (t.0, Prefixed(i, t.1)), Prefixed(i, all))
  {
    forall k | 0 <= k < |t.1|
      ensures Hit(n, f, [i] + t.1[k]) == Hit(Child(n, i).value, f, t.1[k])
    {
      LookupPrefixed(n, i, t.1[k]);
    }
    assert Prefixed(i, t.1) == Prefixed(i, all)[..|t.1|];
  }

  /** A scan that hit in the first part of the paths is a scan of the whole. */
  lemma ScanShapeStopped(n: Node, f: Node -> bool, t: (bool, seq<Path>), all: seq<Path>, rest: seq<Path>)
    requires ScanShape(n, f, t, all) && t.0
    ensures ScanShape(n, f, t, all + rest)
  {
    assert (all + rest)[..|t.1|] == all[..|t.1|];
  }

  /** A scan that missed everywhere in the first part, then a scan of the rest. */
  lemma ScanShapeThen(n: Node, f: Node -> bool, t: (bool, seq<Path>), u: (bool, seq<Path>), all: seq<Path>, rest: seq<Path>)
    requires ScanShape(n, f, t, all) && !t.0 && ScanShape(n, f, u, rest)
    ensures ScanShape(n, f, (u.0, t.1 + u.1), all + rest)
  {
    assert t.1 == all;
    assert (all + rest)[..|all| + |u.1|] == all + u.1;
  }

  /**
    `some` calls func on a prefix of the nodes in `forEach` order, all
    misses but the last; it stops at the first hit and walks every node
    when there is none.
   */
  lemma {:induction false} SomeScanStops(n: Node, f: Node -> bool)
    ensures ScanShape(n, f, SomeScan(n, f), Visit(n))
    decreases n, 1
  {
    assert Lookup(n, []) == Some(n);
    if !f(n) {
      SomeScanFromStops(n, f, 0);
      ScanShapeThen(n, f, (false, [[]]), SomeScanFrom(n, f, 0), [[]], VisitFrom(n, 0));
    } else {
      ScanShapeStopped(n, f, (true, [[]]), [[]], VisitFrom(n, 0));
    }
  }

  /** `SomeScanFrom` has the same shape over the subtrees from slot i on. */
  lemma {:induction false} SomeScanFromStops(n: Node, f: Node -> bool, i: nat)
    requires i <= |Slots(n)|
    ensures ScanShape(n, f, SomeScanFrom(n, f, i), VisitFrom(n, i))
    decreases n, 0, |Slots(n)| - i
  {
    if i < |Slots(n)| {
      match Child(n, i)
      case None =>
        assert VisitFrom(n, i) == VisitFrom(n, i + 1);
        SomeScanFromStops(n, f, i + 1);
      case Some(c) =>
        SomeScanStops(c, f);
        var t := SomeScan(c, f);
        ScanShapePrefixed(n, f, i, t, Visit(c));
        var rest := VisitFrom(n, i + 1);
        if t.0 {
          ScanShapeStopped(n, f, (t.0, Prefixed(i, t.1)), Prefixed(i, Visit(c)), rest);
        } else {
          SomeScanFromStops(n, f, i + 1);
          ScanShapeThen(n, f, (t.0, Prefixed(i, t.1)), SomeScanFrom(n, f, i + 1), Prefixed(i, Visit(c)), rest);
        }
    }
  }

  /** `some` answers whether func holds at some node of the tree. */
  lemma AnyNodeExists(n: Node, f: Node -> bool)
    ensures AnyNode(n, f) <==> exists q :: Hit(n, f, q)
  {
    SomeScanStops(n, f);
    var r := SomeScan(n, f);
    VisitSound(n);
    if !r.0 {
      forall q | Lookup(n, q).Some?
        ensures !Hit(n, f, q)
      {
        VisitComplete(n, q);
        var k :| 0 <= k < |Visit(n)| && Visit(n)[k] == q;
        assert r.1[k] == q;
      }
    }
  }

  // ---------------------------------------------------------------------
  // someEntities

  /** `Array.prototype.some` over a list of ids. */
  predicate AnyOf(s: seq<EntityId>, f: EntityId -> bool) {
    exists k :: 0 <= k < |s| && f(s[k])
  }

  /**
    `someEntities(callback)`: the own list first, then each child in slot
    order, each test only when the node has entities, resp. children.
   */
  function SomeEntities(n: Node, f: EntityId -> bool): bool
    decreases n, 1
  {
    || (HasEntities(n) && AnyOf(Own(n), f))
    || (HasChilds(n) && SomeEntitiesFrom(n, f, 0))
  }

  /** `childs.some(node => node.someEntities(callback))` from slot i on. */
  function SomeEntitiesFrom(n: Node, f: EntityId -> bool, i: nat): bool
    requires i <= |Slots(n)|
    decreases n, 0, |Slots(n)| - i
  {
    if i == |Slots(n)| then false
    else
      || (match Child(n, i) case None => false case Some(c) => SomeEntities(c, f))
      || SomeEntitiesFrom(n, f, i + 1)
  }

  /** Some node at or below n lists an id the callback accepts. */
  ghost predicate HoldsMatch(n: Node, f: EntityId -> bool) {
    exists q, id :: id in EntitiesAt(n, q) && f(id)
  }

  /** `someEntities` holds exactly when some list at or below the node has an id the callback accepts. */
  lemma {:induction false} SomeEntitiesExists(n: Node, f: EntityId -> bool)
    ensures SomeEntities(n, f) <==> HoldsMatch(n, f)
    decreases n, 1
  {
    SomeEntitiesFromExists(n, f, 0);
    if AnyOf(Own(n), f) {
      var k :| 0 <= k < |Own(n)| && f(Own(n)[k]);
      assert Own(n)[k] in EntitiesAt(n, []);
    }
    if HoldsMatch(n, f) {
      var q, id :| id in EntitiesAt(n, q) && f(id);
      if q == [] {
        assert HasEntities(n) && AnyOf(Own(n), f);
      } else {
        assert q == [q[0]] + q[1..];
        LookupPrefixed(n, q[0], q[1..]);
        assert HasChild(n, q[0]);
      }
    }
  }

  /** The slots from i on hold a match exactly when some list below one of them does. */
  lemma {:induction false} SomeEntitiesFromExists(n: Node, f: EntityId -> bool, i: nat)
    requires i <= |Slots(n)|
    ensures SomeEntitiesFrom(n, f, i) <==>
              exists q, id :: q != [] && q[0] >= i && id in EntitiesAt(n, q) && f(id)
    decreases n, 0, |Slots(n)| - i
  {
    if i < |Slots(n)| {
      SomeEntitiesFromExists(n, f, i + 1);
      match Child(n, i)
      case None =>
        forall q | q != [] && q[0] == i
          ensures EntitiesAt(n, q) == []
        {
          assert q == [q[0]] + q[1..];
          LookupPrefixed(n, i, q[1..]);
        }
      case Some(c) =>
        SomeEntitiesExists(c, f);
        if SomeEntities(c, f) {
          var q, id :| id in EntitiesAt(c, q) && f(id);
          LookupPrefixed(n, i, q);
          assert id in EntitiesAt(n, [i] + q);
        }
        forall q, id | q != [] && q[0] == i && id in EntitiesAt(n, q) && f(id)
          ensures SomeEntities(c, f)
        {
          assert q == [q[0]] + q[1..];
          LookupPrefixed(n, i, q[1..]);
          assert id in EntitiesAt(c, q[1..]);
        }
    }
  }
}
