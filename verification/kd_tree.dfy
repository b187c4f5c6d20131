/** The kd-tree of photons (structures/KdTree.hpp): elements are first
    appended, then `optimize` rebuilds the storage as a balanced tree laid
    out in an array, the children of slot i at 2i+1 and 2i+2, the split
    dimension cycling x, y, z with depth. */
module KdTrees {

  import opened Wrappers
  import opened Sorting

  datatype Position = Position(x: real, y: real, z: real)

  /** Coordinate `dim` (0, 1 or 2) of a position. */
  function Coord(p: Position, dim: nat): real {
    if dim % 3 == 0 then p.x else if dim % 3 == 1 then p.y else p.z
  }

  /** An element of the tree: a position and an identifier standing for
      the rest of the stored photon. */
  datatype Item = Item(position: Position, id: int)

  /** The node flags of KdTreeNode. `optimize` marks each chosen median
      MEDIAN, and that mark stays in the array it leaves, beside EMPTY
      slots; GREATER_THAN_MEDIAN is a mark of the partition only. The
      queries tell only EMPTY apart. */
  datatype Flag = Normal | EmptyNode | Median | GreaterThanMedian

  datatype KdNode = KdNode(element: Item, flag: Flag)

  /** The node storage. Before `optimize` it is the elements in insertion
      order; afterwards it is the array layout of a balanced tree. */
  datatype KdTree = KdTree(nodes: seq<KdNode>)

  const Empty: KdTree := KdTree([])

  /** add: one more node at the end. */
  function Add(t: KdTree, e: Item): (r: KdTree)
    ensures GetSize(r) == GetSize(t) + 1
    ensures r.nodes[..GetSize(t)] == t.nodes && r.nodes[GetSize(t)] == KdNode(e, Normal)
  {
    KdTree(t.nodes + [KdNode(e, Normal)])
  }

  function GetSize(t: KdTree): nat {
    |t.nodes|
  }

  /** setData: the storage replaced by the given elements, in order. */
  function SetData(elements: seq<Item>): (r: KdTree)
    ensures GetSize(r) == |elements|
    ensures forall i | 0 <= i < |elements| :: r.nodes[i].flag == Normal
  {
    KdTree(seq(|elements|, i requires 0 <= i < |elements| => KdNode(elements[i], Normal)))
  }

  /** The x coordinate getData writes for an empty slot. */
  const EmptyMark: real := -1000000.0

  /** getData: the element of every slot, empty slots marked by their x
      coordinate. */
  function GetData(t: KdTree): (r: seq<Item>)
    ensures |r| == GetSize(t)
    ensures forall i | 0 <= i < |r| && t.nodes[i].flag == EmptyNode :: r[i].position.x == EmptyMark
    ensures forall i | 0 <= i < |r| && t.nodes[i].flag != EmptyNode :: r[i] == t.nodes[i].element
  {
    seq(|t.nodes|, i requires 0 <= i < |t.nodes| =>
      var e := t.nodes[i].element;
      if t.nodes[i].flag == EmptyNode then e.(position := e.position.(x := EmptyMark)) else e)
  }

  /** Elements stored with setData come back from getData unchanged, and
      adding one by one stores the same as setData. */
  lemma DataRoundTrip(elements: seq<Item>, e: Item)
    ensures GetData(SetData(elements)) == elements
    ensures Add(SetData(elements), e) == SetData(elements + [e])
  {
    var a, b := Add(SetData(elements), e), SetData(elements + [e]);
    assert forall i | 0 <= i < |a.nodes| :: a.nodes[i] == b.nodes[i];
  }

  /** The stored elements, slot by slot, whatever their flags. */
  function Elements(t: KdTree): (r: seq<Item>)
    ensures |r| == |t.nodes|
    ensures forall i | 0 <= i < |r| :: r[i] == t.nodes[i].element
  {
    seq(|t.nodes|, i requires 0 <= i < |t.nodes| => t.nodes[i].element)
  }

  // ---------------------------------------------------------------------
  // Capacity

  function Pow2(k: nat): (p: nat)
    ensures p >= 1
  {
    if k == 0 then 1 else 2 * Pow2(k - 1)
  }

  /** The exponent `optimize` computes as ceil(log2(n + 1)): the least k
      with 2^k > n, searched upward from k. */
  function LevelsFrom(n: nat, k: nat): (levels: nat)
    requires k == 0 || Pow2(k - 1) <= n
    ensures Pow2(levels) > n
    ensures levels == 0 || Pow2(levels - 1) <= n
    decreases n + 1 - Pow2(k)
  {
    if Pow2(k) > n then k else LevelsFrom(n, k + 1)
  }

  /** The number of levels `optimize` provides for n elements. */
  function Levels(n: nat): (k: nat)
    ensures Pow2(k) > n
    ensures k == 0 || Pow2(k - 1) <= n
  {
    LevelsFrom(n, 0)
  }

  /** The storage size after `optimize`: 2^levels - 1, the least number of
      that form that is at least n. */
  function Capacity(n: nat): (c: nat)
    ensures c >= n && c == Pow2(Levels(n)) - 1
    ensures Levels(n) == 0 || Pow2(Levels(n) - 1) - 1 < n
  {
    Pow2(Levels(n)) - 1
  }

  // ---------------------------------------------------------------------
  // Balancing

  /** The balanced tree `optimize` builds, before it is laid out. */
  datatype Tree = Leaf | Node(item: Item, dim: nat, left: Tree, right: Tree)

  function Contents(t: Tree): multiset<Item> {
    match t
    case Leaf => multiset{}
    case Node(x, _, l, r) => Contents(l) + multiset{x} + Contents(r)
  }

  function Size(t: Tree): nat {
    match t
    case Leaf => 0
    case Node(_, _, l, r) => Size(l) + 1 + Size(r)
  }

  function Height(t: Tree): nat {
    match t
    case Leaf => 0
    case Node(_, _, l, r) => 1 + (if Height(l) > Height(r) then Height(l) else Height(r))
  }

  /** The kd ordering: every element of the lower subtree is at most the
      node along the node's dimension, every element of the upper one at
      least, and the dimension cycles with depth. */
  predicate KdOrdered(t: Tree, dim: nat) {
    match t
    case Leaf => true
    case Node(x, d, l, r) =>
      && d == dim % 3 && Splits(x, d, l, r)
      && KdOrdered(l, (dim + 1) % 3) && KdOrdered(r, (dim + 1) % 3)
  }

  /** Node `x` separates its subtrees along dimension d. */
  predicate Splits(x: Item, d: nat, l: Tree, r: Tree) {
    AllBelow(l, Coord(x.position, d), d) && AllAbove(r, Coord(x.position, d), d)
  }

  /** Every element of t is at most v along d. */
  predicate AllBelow(t: Tree, v: real, d: nat) {
    match t
    case Leaf => true
    case Node(y, _, l, r) => Coord(y.position, d) <= v && AllBelow(l, v, d) && AllBelow(r, v, d)
  }

  /** Every element of t is at least v along d. */
  predicate AllAbove(t: Tree, v: real, d: nat) {
    match t
    case Leaf => true
    case Node(y, _, l, r) => Coord(y.position, d) >= v && AllAbove(l, v, d) && AllAbove(r, v, d)
  }

  /** A bound on the contents is a bound on every node. */
  lemma {:induction false} BoundsFromContents(t: Tree, v: real, d: nat, below: bool)
    requires below ==> forall y | y in Contents(t) :: Coord(y.position, d) <= v
    requires !below ==> forall y | y in Contents(t) :: Coord(y.position, d) >= v
    ensures below ==> AllBelow(t, v, d)
    ensures !below ==> AllAbove(t, v, d)
  {
    if t.Node? {
      assert t.item in Contents(t);
      assert forall y | y in Contents(t.left) :: y in Contents(t);
      assert forall y | y in Contents(t.right) :: y in Contents(t);
      BoundsFromContents(t.left, v, d, below);
      BoundsFromContents(t.right, v, d, below);
    }
  }

  /** Every element of a bounded tree respects the bound. */
  lemma {:induction false} BoundOfMember(t: Tree, v: real, d: nat, y: Item)
    requires y in Contents(t)
    ensures AllBelow(t, v, d) ==> Coord(y.position, d) <= v
    ensures AllAbove(t, v, d) ==> Coord(y.position, d) >= v
  {
    if y != t.item {
      if y in Contents(t.left) {
        BoundOfMember(t.left, v, d, y);
      } else {
        BoundOfMember(t.right, v, d, y);
      }
    }
  }

  function DimKey(dim: nat): Item -> real {
    (e: Item) => Coord(e.position, dim)
  }

  /** searchMedian over elements sorted along `dim`: none for no elements,
      otherwise the element at size/2. */
  function SearchMedian(sorted: seq<Item>): (r: Option<Item>)
    ensures r.None? <==> sorted == []
    ensures r.Some? ==> r.value == sorted[|sorted| / 2]
  {
    if |sorted| == 0 then None else Some(sorted[|sorted| / 2])
  }

  /** The three parts of a sequence around position m. */
  lemma SplitAround(s: seq<Item>, m: nat)
    requires m < |s|
    ensures multiset(s[..m]) + multiset{s[m]} + multiset(s[m + 1..]) == multiset(s)
  {
    assert s == s[..m] + [s[m]] + s[m + 1..];
  }

  predicate AllAtMost(s: seq<Item>, x: Item, dim: nat) {
    forall y | y in s :: Coord(y.position, dim) <= Coord(x.position, dim)
  }

  predicate AllAtLeast(s: seq<Item>, x: Item, dim: nat) {
    forall y | y in s :: Coord(y.position, dim) >= Coord(x.position, dim)
  }

  /** searchMedian and splitArrays together: the elements sorted along
      `dim`, the median at position size/2, the elements before it and
      the elements after it. */
  function SplitAtMedian(items: seq<Item>, dim: nat): (r: (Item, seq<Item>, seq<Item>))
    requires items != []
    ensures |r.1| + 1 + |r.2| == |items| && |r.2| <= |r.1| <= |r.2| + 1
    ensures multiset(r.1) + multiset{r.0} + multiset(r.2) == multiset(items)
    ensures AllAtMost(r.1, r.0, dim) && AllAtLeast(r.2, r.0, dim)
  {
    var s := Sort(items, DimKey(dim));
    var m := |s| / 2;
    assert m + 1 + (|s| - m - 1) == |s| && |s| - m - 1 <= m <= |s| - m;
    SplitAround(s, m);
    SortedSplit(s, DimKey(dim), m);
    (s[m], s[..m], s[m + 1..])
  }

  /** The two subtrees of every node differ in size by at most one, the
      lower one being the larger. */
  predicate SizeBalanced(t: Tree) {
    match t
    case Leaf => true
    case Node(_, _, l, r) =>
      Size(r) <= Size(l) <= Size(r) + 1 && SizeBalanced(l) && SizeBalanced(r)
  }

  /** The node balanceTree builds from a median and two balanced halves. */
  lemma BalancedNode(items: seq<Item>, dim: nat, median: Item, lower: seq<Item>, upper: seq<Item>,
                     l: Tree, r: Tree)
    requires dim < 3
    requires |lower| + 1 + |upper| == |items| && |upper| <= |lower| <= |upper| + 1
    requires multiset(lower) + multiset{median} + multiset(upper) == multiset(items)
    requires AllAtMost(lower, median, dim) && AllAtLeast(upper, median, dim)
    requires Contents(l) == multiset(lower) && KdOrdered(l, (dim + 1) % 3)
    requires SizeBalanced(l) && Size(l) == |lower|
    requires Contents(r) == multiset(upper) && KdOrdered(r, (dim + 1) % 3)
    requires SizeBalanced(r) && Size(r) == |upper|
    ensures Contents(Node(median, dim, l, r)) == multiset(items)
    ensures KdOrdered(Node(median, dim, l, r), dim)
    ensures SizeBalanced(Node(median, dim, l, r)) && Size(Node(median, dim, l, r)) == |items|
  {
    assert forall y | y in Contents(l) :: y in lower;
    assert forall y | y in Contents(r) :: y in upper;
    BoundsFromContents(l, Coord(median.position, dim), dim, true);
    BoundsFromContents(r, Coord(median.position, dim), dim, false);
  }

  /** balanceTree: the median along `dim` at the root, the elements below
      it in the sort order on the lower side, those above on the upper
      side, both balanced along the next dimension. */
  function Balance(items: seq<Item>, dim: nat): (t: Tree)
    requires dim < 3
    ensures Contents(t) == multiset(items)
    ensures KdOrdered(t, dim) && SizeBalanced(t) && Size(t) == |items|
    decreases |items|
  {
    if items == [] then Leaf
    else
      var parts := SplitAtMedian(items, dim);
      var l := Balance(parts.1, (dim + 1) % 3);
      var r := Balance(parts.2, (dim + 1) % 3);
      BalancedNode(items, dim, parts.0, parts.1, parts.2, l, r);
      Node(parts.0, dim, l, r)
  }

  /** A size-balanced tree of fewer than 2^h elements has height at most h. */
  lemma {:induction false} BalancedHeight(t: Tree, h: nat)
    requires SizeBalanced(t) && Size(t) < Pow2(h)
    ensures Height(t) <= h
  {
    if t.Node? {
      assert h > 0;
      var p := Pow2(h - 1);
      assert Pow2(h) == 2 * p;
      assert Size(t.left) < p && Size(t.right) < p;
      BalancedHeight(t.left, h - 1);
      BalancedHeight(t.right, h - 1);
    }
  }

  // ---------------------------------------------------------------------
  // Array layout

  function Parent(j: nat): nat
    requires j > 0
  {
    (j - 1) / 2
  }

  /** The subtree stored at slot j: slot 0 is the root, slot 2i+1 the lower
      child of slot i and slot 2i+2 its upper child. */
  function Sub(t: Tree, j: nat): Tree
    decreases j
  {
    if j == 0 then t
    else
      match Sub(t, Parent(j))
      case Leaf => Leaf
      case Node(_, _, l, r) => if j % 2 == 1 then l else r
  }

  /** The number of steps from slot j up to the root. */
  function Depth(j: nat): nat
    decreases j
  {
    if j == 0 then 0 else 1 + Depth(Parent(j))
  }

  /** The children of slot i are at 2i+1 and 2i+2. */
  lemma ChildrenSlots(t: Tree, i: nat)
    ensures Sub(t, i).Node? ==> Sub(t, 2 * i + 1) == Sub(t, i).left && Sub(t, 2 * i + 2) == Sub(t, i).right
    ensures Depth(2 * i + 1) == Depth(i) + 1 && Depth(2 * i + 2) == Depth(i) + 1
  {
    assert Parent(2 * i + 1) == i && Parent(2 * i + 2) == i;
  }

  /** A slot holds a node only above the tree's height. */
  lemma {:induction false} SubDepth(t: Tree, j: nat)
    requires Sub(t, j).Node?
    ensures Depth(j) + Height(Sub(t, j)) <= Height(t)
    decreases j
  {
    if j > 0 {
      SubDepth(t, Parent(j));
    }
  }

  /** Slot j lies within the first Depth(j) + 1 levels. */
  lemma {:induction false} SlotBound(j: nat)
    ensures j < Pow2(Depth(j) + 1) - 1
    decreases j
  {
    if j > 0 {
      SlotBound(Parent(j));
    }
  }

  lemma {:induction false} Pow2Mono(a: nat, b: nat)
    requires a <= b
    ensures Pow2(a) <= Pow2(b)
    decreases b
  {
    if a < b {
      Pow2Mono(a, b - 1);
    }
  }

  lemma KdChildren(t: Tree, dim: nat)
    requires KdOrdered(t, dim) && t.Node?
    ensures t.dim == dim % 3
    ensures KdOrdered(t.left, (dim + 1) % 3) && KdOrdered(t.right, (dim + 1) % 3)
  {
  }

  lemma NextDim(d: nat)
    ensures (d % 3 + 1) % 3 == (d + 1) % 3
  {
  }

  /** The dimension of the node at slot j is its depth modulo 3. */
  lemma {:induction false} SubDim(t: Tree, j: nat)
    requires KdOrdered(t, 0) && Sub(t, j).Node?
    ensures KdOrdered(Sub(t, j), Depth(j) % 3) && Sub(t, j).dim == Depth(j) % 3
    decreases j
  {
    if j > 0 {
      var p := Parent(j);
      SubDim(t, p);
      KdChildren(Sub(t, p), Depth(p) % 3);
      NextDim(Depth(p));
      assert Depth(j) == Depth(p) + 1;
    }
  }

  /** A tree of height at most k leaves every slot from 2^k - 1 on empty. */
  lemma TreeWithinLevels(tree: Tree, k: nat)
    requires Height(tree) <= k
    ensures forall j: nat | Sub(tree, j).Node? :: j < Pow2(k) - 1
  {
    forall j: nat | Sub(tree, j).Node? ensures j < Pow2(k) - 1 {
      SubDepth(tree, j);
      SlotBound(j);
      Pow2Mono(Depth(j) + 1, k);
    }
  }

  /** The array `optimize` stores: each slot holds the element of its
      subtree's root, still flagged as a median, or is flagged empty with a
      default element. */
  function Layout(t: Tree, capacity: nat, blank: Item): (slots: seq<KdNode>)
    ensures |slots| == capacity
  {
    seq(capacity, j requires 0 <= j < capacity =>
      match Sub(t, j)
      case Leaf => KdNode(blank, EmptyNode)
      case Node(x, _, _, _) => KdNode(x, Median))
  }

  /** optimize: balance the stored elements and lay them out in
      Capacity(n) slots; `blank` is the default-constructed element of the
      empty slots. */
  function Optimize(t: KdTree, blank: Item): (r: KdTree)
    ensures GetSize(r) == Capacity(GetSize(t))
  {
    var items := Elements(t);
    KdTree(Layout(Balance(items, 0), Capacity(|items|), blank))
  }

  /** The tree `optimize` lays out, and the facts that make the layout
      lose nothing: it holds the stored elements, it is kd-ordered, and
      every one of its nodes sits at a slot below the capacity. */
  lemma OptimizeLayout(t: KdTree, blank: Item) returns (tree: Tree)
    ensures Contents(tree) == multiset(Elements(t))
    ensures KdOrdered(tree, 0)
    ensures Optimize(t, blank).nodes == Layout(tree, Capacity(GetSize(t)), blank)
    ensures forall j: nat | Sub(tree, j).Node? :: j < Capacity(GetSize(t))
  {
    var items := Elements(t);
    tree := Balance(items, 0);
    BalancedHeight(tree, Levels(|items|));
    TreeWithinLevels(tree, Levels(|items|));
  }
}
