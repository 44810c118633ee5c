/** The threaded search tree as a value: which node sits where and which element it holds.

    The functions below describe, one C function at a time, how the operations of
    containers/AVLTree.c rearrange that value.  Heights are not stored: a node's height is
    determined by where the node sits, and `AvlTree.Linked` says that the stored one agrees. */
module AvlShape {
  import opened Ordering
  import opened Sequences

  class Node {
    var data: Blob
    var lchild: Node?
    var rchild: Node?
    var prev: Node?
    var next: Node?
    var height: int

    constructor (elem: Blob)
      ensures data == elem && height == 1
      ensures lchild == null && rchild == null && prev == null && next == null
    {
      data, height := elem, 1;
      lchild, rchild, prev, next := null, null, null, null;
    }
  }

  datatype Shape = Nil | Bin(node: Node, key: Blob, l: Shape, r: Shape)

  function Root(s: Shape): (n: Node?)
    ensures n != null ==> n in Repr(s)
  {
    if s.Nil? then null else s.node
  }

  function Height(s: Shape): (h: nat)
    ensures h == 0 <==> s.Nil?
  {
    match s
    case Nil => 0
    case Bin(_, _, l, r) => 1 + if Height(l) >= Height(r) then Height(l) else Height(r)
  }

  /** The balance factor: right height minus left height. */
  function Factor(s: Shape): int {
    if s.Nil? then 0 else Height(s.r) - Height(s.l)
  }

  /** The nodes from left to right. */
  function Nodes(s: Shape): seq<Node> {
    match s
    case Nil => []
    case Bin(n, _, l, r) => Nodes(l) + [n] + Nodes(r)
  }

  /** The elements from left to right. */
  function Keys(s: Shape): seq<Blob> {
    match s
    case Nil => []
    case Bin(_, k, l, r) => Keys(l) + [k] + Keys(r)
  }

  function Repr(s: Shape): set<Node> {
    match s
    case Nil => {}
    case Bin(n, _, l, r) => Repr(l) + {n} + Repr(r)
  }

  lemma SameCount(s: Shape)
    ensures |Nodes(s)| == |Keys(s)|
  {}

  lemma {:induction false} NodesOfRepr(s: Shape)
    ensures Repr(s) == set n | n in Nodes(s)
  {
    if s.Bin? {
      NodesOfRepr(s.l);
      NodesOfRepr(s.r);
    }
  }

  /** No node occurs twice. */
  predicate Distinct(s: Shape) {
    match s
    case Nil => true
    case Bin(n, _, l, r) => Distinct(l) && Distinct(r) && n !in Repr(l) && n !in Repr(r) && Repr(l) !! Repr(r)
  }

  lemma DisjointTrees(s: Shape, t: Shape)
    ensures Repr(s) !! Repr(t) <==> Disjoint(Nodes(s), Nodes(t))
  {
    NodesOfRepr(s);
    NodesOfRepr(t);
  }

  lemma {:induction false} DistinctMeansNoDuplicates(s: Shape)
    ensures Distinct(s) <==> NoDuplicates(Nodes(s))
  {
    if s.Bin? {
      DistinctMeansNoDuplicates(s.l);
      DistinctMeansNoDuplicates(s.r);
      DisjointTrees(s.l, s.r);
      assert s.node in Repr(s.l) <==> s.node in Nodes(s.l) by { NodesOfRepr(s.l); }
      assert s.node in Repr(s.r) <==> s.node in Nodes(s.r) by { NodesOfRepr(s.r); }
      NoDuplicatesAround(Nodes(s.l), s.node, Nodes(s.r));
    }
  }

  // ---------- rotations (containers/AVLTree.c:60-149) ----------

  /** A rotation to the left dereferences the right child and one of that child's children. */
  predicate CanRotateLeft(s: Shape) {
    s.Bin? && s.r.Bin? && (s.r.r.Nil? ==> s.r.l.Bin?)
  }

  predicate CanRotateRight(s: Shape) {
    s.Bin? && s.l.Bin? && (s.l.l.Nil? ==> s.l.r.Bin?)
  }

  function RotateLeft(s: Shape): Shape
    requires CanRotateLeft(s)
  {
    var x := s.r;
    if x.r.Nil? then
      var y := x.l;
      Bin(y.node, y.key, Bin(s.node, s.key, s.l, y.l), Bin(x.node, x.key, y.r, x.r))
    else
      Bin(x.node, x.key, Bin(s.node, s.key, s.l, x.l), x.r)
  }

  function RotateRight(s: Shape): Shape
    requires CanRotateRight(s)
  {
    var x := s.l;
    if x.l.Nil? then
      var y := x.r;
      Bin(y.node, y.key, Bin(x.node, x.key, x.l, y.l), Bin(s.node, s.key, y.r, s.r))
    else
      Bin(x.node, x.key, x.l, Bin(s.node, s.key, x.r, s.r))
  }

  predicate LeftHeavyInside(s: Shape) {
    s.Bin? && s.l.Bin? && s.l.r.Bin? && Factor(s.l.r) > 0
  }

  predicate RightHeavyInside(s: Shape) {
    s.Bin? && s.r.Bin? && s.r.l.Bin? && Factor(s.r.l) < 0
  }

  function LeftRightRotate(s: Shape): Shape
    requires LeftHeavyInside(s)
  {
    RotateRight(s.(l := RotateLeft(s.l)))
  }

  function RightLeftRotate(s: Shape): Shape
    requires RightHeavyInside(s)
  {
    RotateLeft(s.(r := RotateRight(s.r)))
  }

  lemma LeaningLeft(s: Shape)
    requires Factor(s) <= -2
    ensures CanRotateRight(s)
  {
    assert Height(s.l) >= 2;
    assert s.l.l.Nil? ==> Height(s.l.l) == 0;
  }

  lemma LeaningRight(s: Shape)
    requires Factor(s) >= 2
    ensures CanRotateLeft(s)
  {
    assert Height(s.r) >= 2;
    assert s.r.r.Nil? ==> Height(s.r.r) == 0;
  }

  /** Repairs a tree that leans to the left by two or more (containers/AVLTree.c:174-184). */
  function LeftBalance(s: Shape): Shape {
    if Factor(s) <= -2 then
      if LeftHeavyInside(s) then LeftRightRotate(s) else (LeaningLeft(s); RotateRight(s))
    else s
  }

  function RightBalance(s: Shape): Shape {
    if Factor(s) >= 2 then
      if RightHeavyInside(s) then RightLeftRotate(s) else (LeaningRight(s); RotateLeft(s))
    else s
  }

  /** `t` is a rearrangement of `s`: same elements and same nodes in the same order. */
  ghost predicate Rearranged(s: Shape, t: Shape) {
    Nodes(t) == Nodes(s) && Keys(t) == Keys(s)
  }

  lemma RearrangedNodes(s: Shape, t: Shape)
    requires Rearranged(s, t)
    ensures Repr(t) == Repr(s) && (Distinct(t) <==> Distinct(s))
  {
    NodesOfRepr(s);
    NodesOfRepr(t);
    DistinctMeansNoDuplicates(s);
    DistinctMeansNoDuplicates(t);
  }

  lemma RotateLeftRearranges(s: Shape)
    requires CanRotateLeft(s)
    ensures Rearranged(s, RotateLeft(s))
  {
    var t, x := RotateLeft(s), s.r;
    if x.r.Nil? {
      var y := x.l;
      assert Nodes(x) == Nodes(y.l) + [y.node] + Nodes(y.r) + [x.node];
      assert Keys(x) == Keys(y.l) + [y.key] + Keys(y.r) + [x.key];
      assert Nodes(t.r) == Nodes(y.r) + [x.node] && Keys(t.r) == Keys(y.r) + [x.key];
    }
  }

  lemma RotateRightRearranges(s: Shape)
    requires CanRotateRight(s)
    ensures Rearranged(s, RotateRight(s))
  {
    var t, x := RotateRight(s), s.l;
    if x.l.Nil? {
      var y := x.r;
      assert Nodes(x) == [x.node] + Nodes(y.l) + [y.node] + Nodes(y.r);
      assert Keys(x) == [x.key] + Keys(y.l) + [y.key] + Keys(y.r);
      assert Nodes(t.l) == [x.node] + Nodes(y.l) && Keys(t.l) == [x.key] + Keys(y.l);
    }
  }

  lemma RearrangedInside(s: Shape, l: Shape, r: Shape)
    requires s.Bin? && Rearranged(s.l, l) && Rearranged(s.r, r)
    ensures Rearranged(s, s.(l := l, r := r))
  {}

  lemma LeftBalanceRearranges(s: Shape)
    ensures Rearranged(s, LeftBalance(s))
  {
    if Factor(s) <= -2 {
      if LeftHeavyInside(s) {
        RotateLeftRearranges(s.l);
        RearrangedInside(s, RotateLeft(s.l), s.r);
        RotateRightRearranges(s.(l := RotateLeft(s.l)));
      } else {
        LeaningLeft(s);
        RotateRightRearranges(s);
      }
    }
  }

  lemma RightBalanceRearranges(s: Shape)
    ensures Rearranged(s, RightBalance(s))
  {
    if Factor(s) >= 2 {
      if RightHeavyInside(s) {
        RotateRightRearranges(s.r);
        RearrangedInside(s, s.l, RotateRight(s.r));
        RotateLeftRearranges(s.(r := RotateRight(s.r)));
      } else {
        LeaningRight(s);
        RotateLeftRearranges(s);
      }
    }
  }

  /** `t` is `s` after a look at its lean: as it is unless it leans to the right by two or more;
      otherwise the right child has come up, or that child's left child if it leans to the left or
      the right child has no other. */
  ghost predicate LiftedRight(s: Shape, t: Shape) {
    if s.Nil? || Height(s.r) < Height(s.l) + 2 then t == s
    else
      var (x, y) := (s.r, s.r.l);
      if x.r.Nil? || (y.Bin? && Height(y.l) > Height(y.r))
      then y.Bin? && t == Bin(y.node, y.key, Bin(s.node, s.key, s.l, y.l), Bin(x.node, x.key, y.r, x.r))
      else t == Bin(x.node, x.key, Bin(s.node, s.key, s.l, y), x.r)
  }

  ghost predicate LiftedLeft(s: Shape, t: Shape) {
    if s.Nil? || Height(s.l) < Height(s.r) + 2 then t == s
    else
      var (x, y) := (s.l, s.l.r);
      if x.l.Nil? || (y.Bin? && Height(y.r) > Height(y.l))
      then y.Bin? && t == Bin(y.node, y.key, Bin(x.node, x.key, x.l, y.l), Bin(s.node, s.key, y.r, s.r))
      else t == Bin(x.node, x.key, x.l, Bin(s.node, s.key, y, s.r))
  }

  /** Which rotation a repair chooses and what it makes of the tree, however unbalanced that is. */
  lemma RightBalanceLifts(s: Shape)
    ensures LiftedRight(s, RightBalance(s))
  {
    if Factor(s) >= 2 { LeaningRight(s); }
  }

  lemma LeftBalanceLifts(s: Shape)
    ensures LiftedLeft(s, LeftBalance(s))
  {
    if Factor(s) <= -2 { LeaningLeft(s); }
  }

  // ---------- search, insertion (containers/AVLTree.c:38-56, 198-276) ----------

  /** What following the comparator down the tree finds. */
  function Find(cmp: Comparator, s: Shape, k: Blob): Node? {
    if s.Nil? then null
    else
      var c := cmp(k, s.key);
      if c == 0 then s.node else if c < 0 then Find(cmp, s.l, k) else Find(cmp, s.r, k)
  }

  function Insert(cmp: Comparator, s: Shape, k: Blob, n: Node): Shape {
    if s.Nil? then Bin(n, k, Nil, Nil)
    else if cmp(k, s.key) < 0 then LeftBalance(s.(l := Insert(cmp, s.l, k, n)))
    else RightBalance(s.(r := Insert(cmp, s.r, k, n)))
  }

  /** Insertion looks at the lean of every node on its way back, on the side it came from. */
  lemma InsertionAtNode(cmp: Comparator, s: Shape, k: Blob, n: Node)
    requires s.Bin?
    ensures cmp(k, s.key) < 0 ==> LiftedLeft(s.(l := Insert(cmp, s.l, k, n)), Insert(cmp, s, k, n))
    ensures cmp(k, s.key) >= 0 ==> LiftedRight(s.(r := Insert(cmp, s.r, k, n)), Insert(cmp, s, k, n))
  {
    LeftBalanceLifts(s.(l := Insert(cmp, s.l, k, n)));
    RightBalanceLifts(s.(r := Insert(cmp, s.r, k, n)));
  }

  /** Search decides whether the tree holds an element equal to `k`. */
  lemma {:induction false} FindIsComplete(cmp: Comparator, s: Shape, k: Blob)
    requires ThreeWay(cmp) && Sorted(cmp, Keys(s))
    ensures Find(cmp, s, k) != null <==> Has(cmp, Keys(s), k)
  {
    if s.Bin? {
      SortedAround(cmp, Keys(s.l), s.key, Keys(s.r));
      FindIsComplete(cmp, s.l, k);
      FindIsComplete(cmp, s.r, k);
      HasAround(cmp, Keys(s.l), s.key, Keys(s.r), k);
    }
  }

  /** The position a new node takes among the nodes. */
  function Gap(cmp: Comparator, s: Shape, k: Blob): (i: nat)
    ensures i <= |Nodes(s)|
  {
    if s.Nil? then 0 else if cmp(k, s.key) < 0 then Gap(cmp, s.l, k) else |Nodes(s.l)| + 1 + Gap(cmp, s.r, k)
  }

  /** An element and a node have gone into gap `i`. */
  ghost predicate Filled(s: Shape, i: nat, k: Blob, n: Node, t: Shape) {
    && i <= |Keys(s)| && i <= |Nodes(s)|
    && Keys(t) == Inserted(Keys(s), i, k) && Nodes(t) == Inserted(Nodes(s), i, n)
  }

  lemma FilledOnLeft(s: Shape, i: nat, k: Blob, n: Node, l: Shape)
    requires s.Bin? && Filled(s.l, i, k, n, l)
    ensures Filled(s, i, k, n, s.(l := l))
  {
    InsertedBefore(Nodes(s.l), s.node, Nodes(s.r), i, n);
    InsertedBefore(Keys(s.l), s.key, Keys(s.r), i, k);
  }

  lemma FilledOnRight(s: Shape, i: nat, k: Blob, n: Node, r: Shape)
    requires s.Bin? && Filled(s.r, i, k, n, r)
    ensures Filled(s, |Nodes(s.l)| + 1 + i, k, n, s.(r := r))
  {
    SameCount(s.l);
    InsertedRight(Nodes(s.l) + [s.node], Nodes(s.r), i, n);
    InsertedRight(Keys(s.l) + [s.key], Keys(s.r), i, k);
  }

  lemma FilledThroughRotation(s: Shape, i: nat, k: Blob, n: Node, t: Shape, u: Shape)
    requires Filled(s, i, k, n, t) && Keys(u) == Keys(t) && Nodes(u) == Nodes(t)
    ensures Filled(s, i, k, n, u)
  {}

  lemma {:induction false} InsertFills(cmp: Comparator, s: Shape, k: Blob, n: Node)
    ensures Filled(s, Gap(cmp, s, k), k, n, Insert(cmp, s, k, n))
  {
    if s.Nil? {
      FilledEmpty(k, n);
    } else if cmp(k, s.key) < 0 {
      var t := s.(l := Insert(cmp, s.l, k, n));
      InsertFills(cmp, s.l, k, n);
      FilledOnLeft(s, Gap(cmp, s.l, k), k, n, t.l);
      LeftBalanceRearranges(t);
      FilledThroughRotation(s, Gap(cmp, s.l, k), k, n, t, LeftBalance(t));
    } else {
      var t, i := s.(r := Insert(cmp, s.r, k, n)), |Nodes(s.l)| + 1 + Gap(cmp, s.r, k);
      InsertFills(cmp, s.r, k, n);
      FilledOnRight(s, Gap(cmp, s.r, k), k, n, t.r);
      RightBalanceRearranges(t);
      FilledThroughRotation(s, i, k, n, t, RightBalance(t));
    }
  }

  lemma FilledEmpty(k: Blob, n: Node)
    ensures Filled(Nil, 0, k, n, Bin(n, k, Nil, Nil))
  {}

  /** Insertion puts the new element and the new node into one gap and leaves everything else
      in order, whatever it rotates. */
  lemma InsertFillsGap(cmp: Comparator, s: Shape, k: Blob, n: Node)
    ensures Gap(cmp, s, k) <= |Keys(s)| && Keys(Insert(cmp, s, k, n)) == Inserted(Keys(s), Gap(cmp, s, k), k)
    ensures Nodes(Insert(cmp, s, k, n)) == Inserted(Nodes(s), Gap(cmp, s, k), n)
  {
    InsertFills(cmp, s, k, n);
  }

  lemma {:induction false} InsertDistinct(cmp: Comparator, s: Shape, k: Blob, n: Node)
    requires Distinct(s) && n !in Repr(s)
    ensures Distinct(Insert(cmp, s, k, n)) && Repr(Insert(cmp, s, k, n)) == Repr(s) + {n}
  {
    if s.Bin? {
      if cmp(k, s.key) < 0 {
        InsertDistinct(cmp, s.l, k, n);
        var t := s.(l := Insert(cmp, s.l, k, n));
        LeftBalanceRearranges(t);
        RearrangedNodes(t, LeftBalance(t));
      } else {
        InsertDistinct(cmp, s.r, k, n);
        var t := s.(r := Insert(cmp, s.r, k, n));
        RightBalanceRearranges(t);
        RearrangedNodes(t, RightBalance(t));
      }
    }
  }

  /** In an ordered tree the gap is the place that the order gives an absent element. */
  lemma {:induction false} GapIsSlot(cmp: Comparator, s: Shape, k: Blob)
    requires ThreeWay(cmp) && Sorted(cmp, Keys(s)) && !Has(cmp, Keys(s), k)
    ensures Gap(cmp, s, k) == Slot(cmp, Keys(s), k)
  {
    if s.Bin? {
      SortedAround(cmp, Keys(s.l), s.key, Keys(s.r));
      HasAround(cmp, Keys(s.l), s.key, Keys(s.r), k);
      SameCount(s.l);
      if cmp(k, s.key) < 0 {
        GapIsSlot(cmp, s.l, k);
        SlotLeft(cmp, Keys(s.l), s.key, Keys(s.r), k);
      } else {
        GapIsSlot(cmp, s.r, k);
        SlotRight(cmp, Keys(s.l), s.key, Keys(s.r), k);
      }
    }
  }

  /** What one insertion does to an ordered tree. */
  lemma InsertKeepsOrder(cmp: Comparator, s: Shape, k: Blob, n: Node)
    requires ThreeWay(cmp) && Sorted(cmp, Keys(s)) && Distinct(s)
    requires Find(cmp, s, k) == null && n !in Repr(s)
    ensures var t := Insert(cmp, s, k, n);
            && Sorted(cmp, Keys(t)) && Keys(t) == Placed(cmp, Keys(s), k)
            && Distinct(t) && Repr(t) == Repr(s) + {n}
  {
    FindIsComplete(cmp, s, k);
    InsertDistinct(cmp, s, k, n);
    InsertFillsGap(cmp, s, k, n);
    GapIsSlot(cmp, s, k);
    PlacedIsSorted(cmp, Keys(s), k);
  }
}
