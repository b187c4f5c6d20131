/** The queries of the optimized kd-tree (structures/KdTree.hpp): the
    radius search getElementWithinRadius, the bisection on the radius of
    getNearestNeighbor and the single descent of getNearestElement. */
module KdQueries {

  import opened Wrappers
  import opened Sorting
  import opened KdTrees
  import opened RealArith

  /** The squared Euclidean distance the queries compare. */
  function Dist2(a: Position, b: Position): (d: real)
    ensures d >= 0.0
  {
    Square(a.x - b.x) + Square(a.y - b.y) + Square(a.z - b.z)
  }

  /** The squared distance is at least the square of the gap along any
      one axis. */
  lemma DistAtLeastAxis(a: Position, b: Position, d: nat)
    ensures Dist2(a, b) >= Square(Coord(a, d) - Coord(b, d))
  {
    SquareSign(a.x - b.x);
    SquareSign(a.y - b.y);
    SquareSign(a.z - b.z);
  }

  // ---------------------------------------------------------------------
  // Reference: the elements of a tree inside the search sphere

  predicate Within(y: Item, origin: Position, radius: real) {
    Dist2(origin, y.position) < Square(radius)
  }

  /** The elements of t strictly inside the sphere of the given radius. */
  function InRadius(t: Tree, origin: Position, radius: real): multiset<Item> {
    match t
    case Leaf => multiset{}
    case Node(x, _, l, r) =>
      InRadius(l, origin, radius)
      + (if Within(x, origin, radius) then multiset{x} else multiset{})
      + InRadius(r, origin, radius)
  }

  /** InRadius selects exactly the contents inside the sphere. */
  lemma {:induction false} InRadiusMembers(t: Tree, origin: Position, radius: real, y: Item)
    ensures y in InRadius(t, origin, radius) <==> y in Contents(t) && Within(y, origin, radius)
  {
    if t.Node? {
      InRadiusMembers(t.left, origin, radius, y);
      InRadiusMembers(t.right, origin, radius, y);
    }
  }

  // ---------------------------------------------------------------------
  // getElementWithinRadius on the tree

  /** The element of a node is kept when it lies inside the sphere. */
  function Keep(x: Item, origin: Position, radius: real, found: seq<Item>): (r: seq<Item>)
    ensures Within(x, origin, radius) ==> r == found + [x]
    ensures !Within(x, origin, radius) ==> r == found
  {
    if Within(x, origin, radius) then found + [x] else found
  }

  /** The signed distance from the origin to the splitting plane of node x. */
  function Gap(origin: Position, x: Item, dim: nat): real {
    Coord(origin, dim) - Coord(x.position, dim)
  }

  /** The side of a node where the origin lies, searched first. */
  function Near(t: Tree, gap: real): Tree
    requires t.Node?
  {
    if gap < 0.0 then t.left else t.right
  }

  /** The other side, searched only when the plane cuts the sphere. */
  function Far(t: Tree, gap: real): Tree
    requires t.Node?
  {
    if gap < 0.0 then t.right else t.left
  }

  /** The splitting plane lies strictly nearer than the radius. */
  predicate Cuts(gap: real, radius: real) {
    Square(gap) < Square(radius)
  }

  /** getElementWithinRadius on the subtree t searched along `dim`: first
      the side of the node where the origin lies, then the other side when
      the splitting plane is nearer than the radius, then the node itself.
      The result is the completion flag and the neighbour list after the
      search; `found` is the list before it. */
  function TreeQuery(t: Tree, origin: Position, radius: real, maxSize: nat,
                     found: seq<Item>, dim: nat): (res: (bool, seq<Item>))
    ensures found <= res.1
    ensures !res.0 ==> |res.1| >= maxSize
    ensures t.Node? && |found| >= maxSize ==> !res.0
  {
    match t
    case Leaf => (true, found)
    case Node(x, _, _, _) =>
      if |found| >= maxSize then (false, found)
      else
        var gap := Gap(origin, x, dim);
        var first := TreeQuery(Near(t, gap), origin, radius, maxSize, found, (dim + 1) % 3);
        if !first.0 then first
        else if !Cuts(gap, radius) then (true, Keep(x, origin, radius, first.1))
        else
          var second := TreeQuery(Far(t, gap), origin, radius, maxSize, first.1, (dim + 1) % 3);
          if !second.0 then second
          else (true, Keep(x, origin, radius, second.1))
  }

  function Inside(x: Item, origin: Position, radius: real): multiset<Item> {
    if Within(x, origin, radius) then multiset{x} else multiset{}
  }

  lemma KeepContents(x: Item, origin: Position, radius: real, found: seq<Item>)
    ensures multiset(Keep(x, origin, radius, found)) == multiset(found) + Inside(x, origin, radius)
  {
  }

  lemma NodeInRadius(t: Tree, origin: Position, radius: real, gap: real)
    requires t.Node?
    ensures InRadius(t, origin, radius)
            == InRadius(Near(t, gap), origin, radius) + Inside(t.item, origin, radius)
               + InRadius(Far(t, gap), origin, radius)
  {
  }

  /** The search only ever adds elements of the tree inside the sphere. */
  lemma {:induction false} TreeQuerySound(t: Tree, origin: Position, radius: real, maxSize: nat,
                                          found: seq<Item>, dim: nat)
    ensures multiset(TreeQuery(t, origin, radius, maxSize, found, dim).1)
            <= multiset(found) + InRadius(t, origin, radius)
  {
    if t.Node? && |found| < maxSize {
      var x := t.item;
      var gap := Gap(origin, x, dim);
      NodeInRadius(t, origin, radius, gap);
      TreeQuerySound(Near(t, gap), origin, radius, maxSize, found, (dim + 1) % 3);
      var first := TreeQuery(Near(t, gap), origin, radius, maxSize, found, (dim + 1) % 3);
      if first.0 {
        if !Cuts(gap, radius) {
          KeepContents(x, origin, radius, first.1);
        } else {
          TreeQuerySound(Far(t, gap), origin, radius, maxSize, first.1, (dim + 1) % 3);
          var second := TreeQuery(Far(t, gap), origin, radius, maxSize, first.1, (dim + 1) % 3);
          KeepContents(x, origin, radius, second.1);
        }
      }
    }
  }

  /** Nothing on the far side of a splitting plane lies inside a sphere
      the plane does not cut. */
  lemma {:induction false} FarSideEmpty(t: Tree, origin: Position, radius: real, v: real, d: nat, below: bool)
    requires below ==> AllBelow(t, v, d) && Coord(origin, d) >= v
    requires !below ==> AllAbove(t, v, d) && Coord(origin, d) <= v
    requires !Cuts(Coord(origin, d) - v, radius)
    ensures InRadius(t, origin, radius) == multiset{}
  {
    if t.Node? {
      var c := Coord(t.item.position, d);
      var o := Coord(origin, d);
      DistAtLeastAxis(origin, t.item.position, d);
      if below {
        SquareMono(o - c, o - v);
      } else {
        SquareMono(c - o, v - o);
        SquareNeg(c - o);
        SquareNeg(v - o);
      }
      assert !Within(t.item, origin, radius);
      FarSideEmpty(t.left, origin, radius, v, d, below);
      FarSideEmpty(t.right, origin, radius, v, d, below);
    }
  }

  /** When the splitting plane does not cut the sphere, neither the node
      nor the far side holds an element inside it. */
  lemma PruneStep(t: Tree, origin: Position, radius: real, dim: nat)
    requires t.Node? && Splits(t.item, dim, t.left, t.right)
    requires !Cuts(Gap(origin, t.item, dim), radius)
    ensures !Within(t.item, origin, radius)
    ensures InRadius(Far(t, Gap(origin, t.item, dim)), origin, radius) == multiset{}
  {
    var v := Coord(t.item.position, dim);
    DistAtLeastAxis(origin, t.item.position, dim);
    if Coord(origin, dim) >= v {
      FarSideEmpty(t.left, origin, radius, v, dim, true);
    } else {
      FarSideEmpty(t.right, origin, radius, v, dim, false);
    }
  }

  /** The node step when the plane does not cut the sphere. */
  lemma CompletePruned(t: Tree, origin: Position, radius: real, maxSize: nat, found: seq<Item>, dim: nat)
    requires t.Node? && |found| < maxSize && Splits(t.item, dim, t.left, t.right)
    requires !Cuts(Gap(origin, t.item, dim), radius)
    requires var first := TreeQuery(Near(t, Gap(origin, t.item, dim)), origin, radius, maxSize, found, (dim + 1) % 3);
             first.0 ==> multiset(first.1) == multiset(found) + InRadius(Near(t, Gap(origin, t.item, dim)), origin, radius)
    ensures var res := TreeQuery(t, origin, radius, maxSize, found, dim);
            res.0 ==> multiset(res.1) == multiset(found) + InRadius(t, origin, radius)
  {
    var gap := Gap(origin, t.item, dim);
    NodeInRadius(t, origin, radius, gap);
    PruneStep(t, origin, radius, dim);
    var first := TreeQuery(Near(t, gap), origin, radius, maxSize, found, (dim + 1) % 3);
    KeepContents(t.item, origin, radius, first.1);
  }

  /** The node step when the plane cuts the sphere and both sides are searched. */
  lemma CompleteBothSides(t: Tree, origin: Position, radius: real, maxSize: nat, found: seq<Item>, dim: nat)
    requires t.Node? && |found| < maxSize
    requires Cuts(Gap(origin, t.item, dim), radius)
    requires var first := TreeQuery(Near(t, Gap(origin, t.item, dim)), origin, radius, maxSize, found, (dim + 1) % 3);
             first.0 ==> multiset(first.1) == multiset(found) + InRadius(Near(t, Gap(origin, t.item, dim)), origin, radius)
    requires var first := TreeQuery(Near(t, Gap(origin, t.item, dim)), origin, radius, maxSize, found, (dim + 1) % 3);
             var second := TreeQuery(Far(t, Gap(origin, t.item, dim)), origin, radius, maxSize, first.1, (dim + 1) % 3);
             second.0 ==> multiset(second.1) == multiset(first.1) + InRadius(Far(t, Gap(origin, t.item, dim)), origin, radius)
    ensures var res := TreeQuery(t, origin, radius, maxSize, found, dim);
            res.0 ==> multiset(res.1) == multiset(found) + InRadius(t, origin, radius)
  {
    var gap := Gap(origin, t.item, dim);
    NodeInRadius(t, origin, radius, gap);
    var first := TreeQuery(Near(t, gap), origin, radius, maxSize, found, (dim + 1) % 3);
    var second := TreeQuery(Far(t, gap), origin, radius, maxSize, first.1, (dim + 1) % 3);
    KeepContents(t.item, origin, radius, second.1);
  }

  /** On a kd-ordered tree a search that completes finds exactly the
      elements inside the sphere: the pruned sides hold none of them. */
  lemma {:induction false} TreeQueryComplete(t: Tree, origin: Position, radius: real, maxSize: nat,
                                             found: seq<Item>, dim: nat)
    requires KdOrdered(t, dim) && dim < 3
    ensures var res := TreeQuery(t, origin, radius, maxSize, found, dim);
            res.0 ==> multiset(res.1) == multiset(found) + InRadius(t, origin, radius)
  {
    if t.Node? && |found| < maxSize {
      assert t.dim == dim && Splits(t.item, dim, t.left, t.right);
      var gap := Gap(origin, t.item, dim);
      TreeQueryComplete(Near(t, gap), origin, radius, maxSize, found, (dim + 1) % 3);
      if Cuts(gap, radius) {
        var first := TreeQuery(Near(t, gap), origin, radius, maxSize, found, (dim + 1) % 3);
        TreeQueryComplete(Far(t, gap), origin, radius, maxSize, first.1, (dim + 1) % 3);
        CompleteBothSides(t, origin, radius, maxSize, found, dim);
      } else {
        CompletePruned(t, origin, radius, maxSize, found, dim);
      }
    }
  }

  /** The elements found by the search are among the tree's contents. */
  lemma {:induction false} InRadiusInContents(t: Tree, origin: Position, radius: real)
    ensures InRadius(t, origin, radius) <= Contents(t)
  {
    if t.Node? {
      InRadiusInContents(t.left, origin, radius);
      InRadiusInContents(t.right, origin, radius);
    }
  }

  // ---------------------------------------------------------------------
  // getElementWithinRadius on the stored slots

  /** The slot of the side where the origin lies. */
  function NearSlot(node: nat, gap: real): nat {
    if gap < 0.0 then 2 * node + 1 else 2 * node + 2
  }

  function FarSlot(node: nat, gap: real): nat {
    if gap < 0.0 then 2 * node + 2 else 2 * node + 1
  }

  /** getElementWithinRadius as the source runs it, on the slot array from
      slot `node` searched along `dim`: a slot past the end or flagged
      empty completes at once; a full neighbour list stops the search. */
  function ArrayQuery(nodes: seq<KdNode>, origin: Position, radius: real, maxSize: nat,
                      found: seq<Item>, node: nat, dim: nat): (res: (bool, seq<Item>))
    ensures found <= res.1
    ensures forall k | |found| <= k < |res.1| :: Within(res.1[k], origin, radius)
    ensures !res.0 ==> |res.1| >= maxSize
    ensures node < |nodes| && nodes[node].flag != EmptyNode && |found| >= maxSize ==> !res.0
    decreases if node < |nodes| then |nodes| - node else 0
  {
    if node >= |nodes| || nodes[node].flag == EmptyNode then (true, found)
    else if |found| >= maxSize then (false, found)
    else
      var x := nodes[node].element;
      var gap := Gap(origin, x, dim);
      var first := ArrayQuery(nodes, origin, radius, maxSize, found, NearSlot(node, gap), (dim + 1) % 3);
      if !first.0 then first
      else if !Cuts(gap, radius) then (true, Keep(x, origin, radius, first.1))
      else
        var second := ArrayQuery(nodes, origin, radius, maxSize, first.1, FarSlot(node, gap), (dim + 1) % 3);
        if !second.0 then second
        else (true, Keep(x, origin, radius, second.1))
  }

  /** On the layout of a tree, the search from a slot is the search of the
      subtree stored there. */
  lemma {:induction false} ArrayIsTree(nodes: seq<KdNode>, t: Tree, blank: Item, origin: Position,
                                       radius: real, maxSize: nat, found: seq<Item>, node: nat, dim: nat)
    requires nodes == Layout(t, |nodes|, blank)
    requires forall j: nat | Sub(t, j).Node? :: j < |nodes|
    ensures ArrayQuery(nodes, origin, radius, maxSize, found, node, dim)
            == TreeQuery(Sub(t, node), origin, radius, maxSize, found, dim)
    decreases if node < |nodes| then |nodes| - node else 0
  {
    var s := Sub(t, node);
    if node < |nodes| && s.Node? && |found| < maxSize {
      ChildrenSlots(t, node);
      var gap := Gap(origin, s.item, dim);
      assert Sub(t, NearSlot(node, gap)) == Near(s, gap);
      assert Sub(t, FarSlot(node, gap)) == Far(s, gap);
      ArrayIsTree(nodes, t, blank, origin, radius, maxSize, found, NearSlot(node, gap), (dim + 1) % 3);
      var first := ArrayQuery(nodes, origin, radius, maxSize, found, NearSlot(node, gap), (dim + 1) % 3);
      ArrayIsTree(nodes, t, blank, origin, radius, maxSize, first.1, FarSlot(node, gap), (dim + 1) % 3);
    }
  }

  /** The radius search from the root of the layout of a kd-ordered tree
      holding `items`. */
  lemma LayoutRadiusQuery(nodes: seq<KdNode>, tree: Tree, blank: Item, items: seq<Item>,
                          origin: Position, radius: real, maxSize: nat)
    requires nodes == Layout(tree, |nodes|, blank)
    requires forall j: nat | Sub(tree, j).Node? :: j < |nodes|
    requires KdOrdered(tree, 0) && Contents(tree) == multiset(items)
    ensures var res := ArrayQuery(nodes, origin, radius, maxSize, [], 0, 0);
            && multiset(res.1) <= multiset(items)
            && (forall y | y in res.1 :: Within(y, origin, radius))
            && (res.0 ==> forall y | y in items && Within(y, origin, radius) :: y in res.1)
  {
    ArrayIsTree(nodes, tree, blank, origin, radius, maxSize, [], 0, 0);
    var res := ArrayQuery(nodes, origin, radius, maxSize, [], 0, 0);
    TreeQuerySound(tree, origin, radius, maxSize, [], 0);
    InRadiusInContents(tree, origin, radius);
    TreeQueryComplete(tree, origin, radius, maxSize, [], 0);
    forall y | y in res.1 ensures Within(y, origin, radius) {
      InRadiusMembers(tree, origin, radius, y);
    }
    if res.0 {
      assert multiset(res.1) == InRadius(tree, origin, radius);
      forall y | y in items && Within(y, origin, radius) ensures y in res.1 {
        assert y in Contents(tree);
        InRadiusMembers(tree, origin, radius, y);
        assert y in multiset(res.1);
      }
    }
  }

  /** The radius search of an optimized tree from its root: it reports only
      stored elements strictly inside the sphere, never more copies than
      are stored, and when it completes it reports every one of them. */
  lemma OptimizedRadiusQuery(kd: KdTree, blank: Item, origin: Position, radius: real, maxSize: nat)
    ensures var res := ArrayQuery(Optimize(kd, blank).nodes, origin, radius, maxSize, [], 0, 0);
            && multiset(res.1) <= multiset(Elements(kd))
            && (forall y | y in res.1 :: Within(y, origin, radius))
            && (res.0 ==> forall y | y in Elements(kd) && Within(y, origin, radius) :: y in res.1)
  {
    var tree := OptimizeLayout(kd, blank);
    LayoutRadiusQuery(Optimize(kd, blank).nodes, tree, blank, Elements(kd), origin, radius, maxSize);
  }

  // ---------------------------------------------------------------------
  // getNearestElement

  /** The elements getNearestElement looks at: from slot `node` down to the
      end of the array, always to the side of the origin, whatever the
      slots' flags. */
  function Walk(nodes: seq<KdNode>, origin: Position, node: nat, dim: nat): seq<Item>
    decreases if node < |nodes| then |nodes| - node else 0
  {
    if node >= |nodes| then []
    else
      var x := nodes[node].element;
      [x] + Walk(nodes, origin, NearSlot(node, Gap(origin, x, dim)), (dim + 1) % 3)
  }

  /** getNearestElement: none for an empty tree; otherwise the first
      element of the walk at the least squared distance from the origin. */
  method NearestElement(nodes: seq<KdNode>, origin: Position) returns (r: Option<Item>)
    ensures r.None? <==> |nodes| == 0
    ensures r.Some? ==>
      exists m :: FirstNearest(Walk(nodes, origin, 0, 0), origin, m) && r.value == Walk(nodes, origin, 0, 0)[m]
  {
    if |nodes| == 0 {
      return None;
    }
    var node: nat, dim: nat := 0, 0;
    var best := nodes[0].element;
    var d2 := Dist2(origin, best.position);
    ghost var seen: seq<Item> := [];
    ghost var m := 0;
    while node < |nodes|
      invariant Walk(nodes, origin, 0, 0) == seen + Walk(nodes, origin, node, dim)
      invariant d2 == Dist2(origin, best.position)
      invariant seen == [] ==> node == 0 && dim == 0 && m == 0 && best == nodes[0].element
      invariant seen != [] ==> 0 <= m < |seen| && best == seen[m]
      invariant forall k | 0 <= k < |seen| :: d2 <= Dist2(origin, seen[k].position)
      invariant forall k | 0 <= k < m && k < |seen| :: Dist2(origin, seen[k].position) > d2
      decreases if node < |nodes| then |nodes| - node else 0
    {
      var x := nodes[node].element;
      assert Walk(nodes, origin, node, dim)
             == [x] + Walk(nodes, origin, NearSlot(node, Gap(origin, x, dim)), (dim + 1) % 3);
      var tmp := Dist2(origin, x.position);
      if tmp < d2 {
        d2 := tmp;
        best := x;
        m := |seen|;
      }
      seen := seen + [x];
      node := NearSlot(node, Gap(origin, x, dim));
      dim := (dim + 1) % 3;
    }
    assert FirstNearest(seen, origin, m);
    assert Walk(nodes, origin, 0, 0) == seen;
    r := Some(best);
  }

  /** Position m of s holds an element at the least distance from the
      origin, and no earlier position does. */
  predicate FirstNearest(s: seq<Item>, origin: Position, m: int) {
    && 0 <= m < |s|
    && (forall k | 0 <= k < |s| :: Dist2(origin, s[m].position) <= Dist2(origin, s[k].position))
    && (forall k | 0 <= k < m :: Dist2(origin, s[k].position) > Dist2(origin, s[m].position))
  }

  // ---------------------------------------------------------------------
  // getNearestNeighbor

  function DistKey(origin: Position): Item -> real {
    (e: Item) => Dist2(origin, e.position)
  }

  /** The sort by distance and the cut to `count` that end getNearestNeighbor. */
  function KeepNearest(found: seq<Item>, origin: Position, count: nat): (r: seq<Item>)
    ensures |r| == if |found| < count then |found| else count
    ensures SortedBy(r, DistKey(origin))
    ensures multiset(r) <= multiset(found)
  {
    var sorted := Sort(found, DistKey(origin));
    if |sorted| > count then
      assert sorted == sorted[..count] + sorted[count..];
      sorted[..count]
    else sorted
  }

  /** Every element cut away is at least as far as every element kept. */
  lemma KeepNearestDropsFarther(found: seq<Item>, origin: Position, count: nat)
    ensures var r := KeepNearest(found, origin, count);
            forall y, k | y in multiset(found) - multiset(r) && 0 <= k < |r| ::
              Dist2(origin, r[k].position) <= Dist2(origin, y.position)
  {
    var sorted := Sort(found, DistKey(origin));
    var r := KeepNearest(found, origin, count);
    if |sorted| > count {
      assert r == sorted[..count];
      SortedPrefixBelow(sorted, DistKey(origin), count);
      forall y, k | y in multiset(found) - multiset(r) && 0 <= k < |r|
        ensures Dist2(origin, r[k].position) <= Dist2(origin, y.position)
      {
        assert DistKey(origin)(sorted[k]) <= DistKey(origin)(y);
      }
    } else {
      assert r == sorted;
    }
  }

  /** The search radius stays between 0 and twice the given one. */
  lemma WithinTwice(found: seq<Item>, origin: Position, curRadius: real, searchRadius: real)
    requires 0.0 <= curRadius <= 2.0 * searchRadius
    requires forall k | 0 <= k < |found| :: Within(found[k], origin, curRadius)
    ensures forall k | 0 <= k < |found| :: Within(found[k], origin, 2.0 * searchRadius)
  {
    SquareMono(2.0 * searchRadius, curRadius);
  }

  /** The radius bisection of getNearestNeighbor: between 0 and twice the
      given radius, until a complete search finds at least `neighborsNb`
      elements; it gives up after 1000 rounds, or as soon as the radius
      grows past the given one. The result is the last search, together
      with the radius it used. */
  method BisectRadius(nodes: seq<KdNode>, origin: Position, neighborsNb: nat, searchRadius: real)
    returns (res: (bool, seq<Item>), curRadius: real)
    ensures res == ArrayQuery(nodes, origin, curRadius, neighborsNb * 2, [], 0, 0)
    ensures searchRadius >= 0.0 ==> 0.0 <= curRadius <= 2.0 * searchRadius
    ensures forall k | 0 <= k < |res.1| :: Within(res.1[k], origin, curRadius)
  {
    var maxRadius := searchRadius * 2.0;
    curRadius := searchRadius;
    var minRadius := 0.0;
    var i := 0;
    res := ArrayQuery(nodes, origin, curRadius, neighborsNb * 2, [], 0, 0);
    while !res.0 || |res.1| < neighborsNb
      invariant 0 <= i <= 1000
      invariant res == ArrayQuery(nodes, origin, curRadius, neighborsNb * 2, [], 0, 0)
      invariant searchRadius >= 0.0 ==> 0.0 <= minRadius <= curRadius <= maxRadius <= 2.0 * searchRadius
      decreases 1000 - i
    {
      i := i + 1;
      if i > 1000 {
        break;
      }
      if curRadius > searchRadius {
        break;
      }
      if |res.1| < neighborsNb {
        minRadius := curRadius;
        curRadius := (curRadius + maxRadius) * 0.5;
      } else {
        maxRadius := curRadius;
        curRadius := (curRadius + minRadius) * 0.5;
      }
      res := ArrayQuery(nodes, origin, curRadius, neighborsNb * 2, [], 0, 0);
    }
  }

  /** getNearestNeighbor: the elements of the last search of the bisection,
      sorted by distance and cut to `neighborsNb`. The returned number is
      the squared distance of the farthest kept element, or 1 when none is
      kept. */
  method NearestNeighbors(nodes: seq<KdNode>, origin: Position, neighborsNb: nat, searchRadius: real)
    returns (neighbors: seq<Item>, radius2: real, ghost usedRadius: real)
    ensures neighbors == KeepNearest(ArrayQuery(nodes, origin, usedRadius, neighborsNb * 2, [], 0, 0).1, origin, neighborsNb)
    ensures searchRadius >= 0.0 ==> 0.0 <= usedRadius <= 2.0 * searchRadius
    ensures |neighbors| <= neighborsNb
    ensures SortedBy(neighbors, DistKey(origin))
    ensures searchRadius >= 0.0 ==> forall k | 0 <= k < |neighbors| :: Within(neighbors[k], origin, 2.0 * searchRadius)
    ensures neighbors == [] ==> radius2 == 1.0
    ensures neighbors != [] ==> radius2 == Dist2(origin, neighbors[|neighbors| - 1].position)
    ensures forall k | 0 <= k < |neighbors| :: Dist2(origin, neighbors[k].position) <= radius2
  {
    var res, curRadius := BisectRadius(nodes, origin, neighborsNb, searchRadius);
    neighbors, radius2 := CutNearest(res.1, origin, neighborsNb, curRadius, searchRadius);
    usedRadius := curRadius;
  }

  /** On an optimized tree, every neighbor found is a stored element, and
      no element is reported more often than it is stored. */
  lemma NearestAreStored(kd: KdTree, blank: Item, origin: Position, radius: real, count: nat)
    ensures var found := ArrayQuery(Optimize(kd, blank).nodes, origin, radius, count * 2, [], 0, 0).1;
            multiset(KeepNearest(found, origin, count)) <= multiset(Elements(kd))
  {
    OptimizedRadiusQuery(kd, blank, origin, radius, count * 2);
  }

  /** The end of getNearestNeighbors: the `count` nearest elements of the
      last search, and the squared distance of the farthest kept one (1
      when nothing was found). */
  method CutNearest(found: seq<Item>, origin: Position, count: nat, curRadius: real, searchRadius: real)
    returns (neighbors: seq<Item>, radius2: real)
    requires searchRadius >= 0.0 ==> 0.0 <= curRadius <= 2.0 * searchRadius
    requires forall k | 0 <= k < |found| :: Within(found[k], origin, curRadius)
    ensures neighbors == KeepNearest(found, origin, count)
    ensures |neighbors| <= count
    ensures SortedBy(neighbors, DistKey(origin))
    ensures searchRadius >= 0.0 ==> forall k | 0 <= k < |neighbors| :: Within(neighbors[k], origin, 2.0 * searchRadius)
    ensures neighbors == [] ==> radius2 == 1.0
    ensures neighbors != [] ==> radius2 == Dist2(origin, neighbors[|neighbors| - 1].position)
    ensures forall k | 0 <= k < |neighbors| :: Dist2(origin, neighbors[k].position) <= radius2
  {
    neighbors := KeepNearest(found, origin, count);
    NearestKept(found, origin, count, curRadius, searchRadius, neighbors);
    if |neighbors| > 0 {
      radius2 := Dist2(origin, neighbors[|neighbors| - 1].position);
    } else {
      radius2 := 1.0;
    }
  }

  /** What the cut of a bisection's last search keeps: at most `count`
      elements, sorted by distance, the last the farthest, all within
      twice the given radius. */
  lemma NearestKept(found: seq<Item>, origin: Position, count: nat, curRadius: real, searchRadius: real, r: seq<Item>)
    requires searchRadius >= 0.0 ==> 0.0 <= curRadius <= 2.0 * searchRadius
    requires forall k | 0 <= k < |found| :: Within(found[k], origin, curRadius)
    requires r == KeepNearest(found, origin, count)
    ensures |r| <= count
    ensures SortedBy(r, DistKey(origin))
    ensures searchRadius >= 0.0 ==> forall k | 0 <= k < |r| :: Within(r[k], origin, 2.0 * searchRadius)
    ensures r != [] ==> forall k | 0 <= k < |r| :: Dist2(origin, r[k].position) <= Dist2(origin, r[|r| - 1].position)
  {
    if searchRadius >= 0.0 {
      WithinTwice(found, origin, curRadius, searchRadius);
      KeptWithin(found, origin, count, 2.0 * searchRadius);
    }
    if r != [] {
      LastIsFarthest(r, origin);
    }
  }

  /** The elements kept from a search all lie inside its sphere. */
  lemma KeptWithin(found: seq<Item>, origin: Position, count: nat, radius: real)
    requires forall k | 0 <= k < |found| :: Within(found[k], origin, radius)
    ensures forall k | 0 <= k < |KeepNearest(found, origin, count)| ::
      Within(KeepNearest(found, origin, count)[k], origin, radius)
  {
    var r := KeepNearest(found, origin, count);
    forall k | 0 <= k < |r| ensures Within(r[k], origin, radius) {
      assert r[k] in multiset(r);
      assert r[k] in found;
    }
  }

  /** In a sequence sorted by distance the last element is the farthest. */
  lemma LastIsFarthest(s: seq<Item>, origin: Position)
    requires SortedBy(s, DistKey(origin)) && s != []
    ensures forall k | 0 <= k < |s| :: Dist2(origin, s[k].position) <= Dist2(origin, s[|s| - 1].position)
  {
    forall k | 0 <= k < |s| ensures Dist2(origin, s[k].position) <= Dist2(origin, s[|s| - 1].position) {
      if k < |s| - 1 {
        assert DistKey(origin)(s[k]) <= DistKey(origin)(s[|s| - 1]);
      }
    }
  }
}
