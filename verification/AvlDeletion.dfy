/** Deletion from the search tree of containers/AVLTree.c, as a change of shape. */
module AvlDeletion {
  import opened Sequences
  import opened Ordering
  import opened AvlShape

  /** The element taken by the walk to the right end, and the tree it leaves behind. */
  function MaxShape(s: Shape): Shape
    requires s.Bin?
    ensures MaxShape(s).Bin?
  {
    if s.r.Nil? then s else MaxShape(s.r)
  }

  function MinShape(s: Shape): Shape
    requires s.Bin?
    ensures MinShape(s).Bin?
  {
    if s.l.Nil? then s else MinShape(s.l)
  }

  function DeleteMax(s: Shape): Shape
    requires s.Bin?
  {
    if s.r.Nil? then s.l else RightBalance(s.(r := DeleteMax(s.r)))
  }

  function DeleteMin(s: Shape): Shape
    requires s.Bin?
  {
    if s.l.Nil? then s.r else LeftBalance(s.(l := DeleteMin(s.l)))
  }

  lemma {:induction false} DeleteMaxOrder(s: Shape)
    requires s.Bin?
    ensures Keys(s) == Keys(DeleteMax(s)) + [MaxShape(s).key]
    ensures Nodes(s) == Nodes(DeleteMax(s)) + [MaxShape(s).node]
  {
    if s.r.Bin? {
      DeleteMaxOrder(s.r);
      RightBalanceRearranges(s.(r := DeleteMax(s.r)));
    }
  }

  lemma {:induction false} DeleteMinOrder(s: Shape)
    requires s.Bin?
    ensures Keys(s) == [MinShape(s).key] + Keys(DeleteMin(s))
    ensures Nodes(s) == [MinShape(s).node] + Nodes(DeleteMin(s))
  {
    if s.l.Bin? {
      DeleteMinOrder(s.l);
      LeftBalanceRearranges(s.(l := DeleteMin(s.l)));
    }
  }

  lemma {:induction false} DeleteMaxDistinct(s: Shape)
    requires s.Bin? && Distinct(s)
    ensures MaxShape(s).node in Repr(s)
    ensures Distinct(DeleteMax(s)) && Repr(DeleteMax(s)) == Repr(s) - {MaxShape(s).node}
  {
    if s.r.Bin? {
      DeleteMaxDistinct(s.r);
      var t := s.(r := DeleteMax(s.r));
      RightBalanceRearranges(t);
      RearrangedNodes(t, RightBalance(t));
    }
  }

  lemma {:induction false} DeleteMinDistinct(s: Shape)
    requires s.Bin? && Distinct(s)
    ensures MinShape(s).node in Repr(s)
    ensures Distinct(DeleteMin(s)) && Repr(DeleteMin(s)) == Repr(s) - {MinShape(s).node}
  {
    if s.l.Bin? {
      DeleteMinDistinct(s.l);
      var t := s.(l := DeleteMin(s.l));
      LeftBalanceRearranges(t);
      RearrangedNodes(t, LeftBalance(t));
    }
  }

  /** The tree after deleting with an iterator whose element is `k`.  The found node, if it is an
      inner one, keeps its place and its neighbour's node goes.  The neighbour's element goes to
      the iterator's node: for an iterator of this tree (`own`) that is the found node, which so
      loses `k`; a foreign node takes the neighbour's element away and `k` stays. */
  function Delete(cmp: Comparator, s: Shape, k: Blob, own: bool): Shape {
    if s.Nil? then Nil
    else
      var c := cmp(k, s.key);
      if c < 0 then RightBalance(s.(l := Delete(cmp, s.l, k, own)))
      else if c > 0 then LeftBalance(s.(r := Delete(cmp, s.r, k, own)))
      else DeleteTop(s, own)
  }

  /** The tree after deleting the element at its top. */
  function DeleteTop(s: Shape, own: bool): Shape
    requires s.Bin?
  {
    if Height(s) == 1 then Nil
    else if Factor(s) > 0 then
      RightBalance(Bin(s.node, if own then MinShape(s.r).key else s.key, s.l, DeleteMin(s.r)))
    else
      LeftBalance(Bin(s.node, if own then MaxShape(s.l).key else s.key, DeleteMax(s.l), s.r))
  }

  /** The subtree at whose top the search for `k` stops. */
  function FoundAt(cmp: Comparator, s: Shape, k: Blob): (t: Shape)
    requires Find(cmp, s, k) != null
    ensures t.Bin? && cmp(k, t.key) == 0
  {
    if cmp(k, s.key) == 0 then s else FoundAt(cmp, if cmp(k, s.key) < 0 then s.l else s.r, k)
  }

  /** The element that the iterator's node holds after it has deleted. */
  function Handed(cmp: Comparator, s: Shape, k: Blob): Blob
    requires Find(cmp, s, k) != null
  {
    var t := FoundAt(cmp, s, k);
    if Height(t) == 1 then k else if Factor(t) > 0 then MinShape(t.r).key else MaxShape(t.l).key
  }

  lemma HandedAtTop(cmp: Comparator, s: Shape, k: Blob)
    requires s.Bin? && cmp(k, s.key) == 0
    ensures Find(cmp, s, k) != null
    ensures Handed(cmp, s, k) ==
            if Height(s) == 1 then k else if Factor(s) > 0 then MinShape(s.r).key else MaxShape(s.l).key
  {}

  /** The position of the element found by following `k`. */
  function Position(cmp: Comparator, s: Shape, k: Blob): nat {
    if s.Nil? then 0
    else
      var c := cmp(k, s.key);
      if c == 0 then |Keys(s.l)| else if c < 0 then Position(cmp, s.l, k)
      else |Keys(s.l)| + 1 + Position(cmp, s.r, k)
  }

  function TopFreed(s: Shape): nat
    requires s.Bin?
  {
    if Height(s) == 1 then 0
    else if Factor(s) > 0 then |Nodes(s.l)| + 1
    else if s.l.Bin? then |Nodes(s.l)| - 1 else 0
  }

  /** The position of the node that deletion frees. */
  function FreedPosition(cmp: Comparator, s: Shape, k: Blob): nat {
    if s.Nil? then 0
    else
      var c := cmp(k, s.key);
      if c < 0 then FreedPosition(cmp, s.l, k)
      else if c > 0 then |Nodes(s.l)| + 1 + FreedPosition(cmp, s.r, k)
      else TopFreed(s)
  }

  lemma {:induction false} PositionFinds(cmp: Comparator, s: Shape, k: Blob)
    requires Find(cmp, s, k) != null
    ensures Position(cmp, s, k) < |Keys(s)| && cmp(k, Keys(s)[Position(cmp, s, k)]) == 0
    ensures Position(cmp, s, k) < |Nodes(s)| && Find(cmp, s, k) == Nodes(s)[Position(cmp, s, k)]
  {
    SameCount(s.l);
    var c := cmp(k, s.key);
    if c < 0 { PositionFinds(cmp, s.l, k); }
    if c > 0 { PositionFinds(cmp, s.r, k); }
  }

  /** The first element of the right neighbour goes, or comes into the place of `x`. */
  lemma FirstGoes<T>(l: seq<T>, x: T, y: T, r: seq<T>)
    ensures l + [y] + r == Removed(l + [x] + ([y] + r), |l|)
    ensures l + [x] + r == Removed(l + [x] + ([y] + r), |l| + 1)
  {
    RemovedAround(l, x, [y] + r, |l|);
    RemovedAround(l, x, [y] + r, |l| + 1);
    assert Removed([y] + r, 0) == r && l + ([y] + r) == l + [y] + r;
  }

  /** The last element of the left neighbour goes, or comes into the place of `x`. */
  lemma LastGoes<T>(l: seq<T>, y: T, x: T, r: seq<T>)
    ensures l + [y] + r == Removed((l + [y]) + [x] + r, |l| + 1)
    ensures l + [x] + r == Removed((l + [y]) + [x] + r, |l|)
  {
    RemovedAround(l + [y], x, r, |l| + 1);
    RemovedAround(l + [y], x, r, |l|);
    assert Removed(l + [y], |l|) == l;
  }

  /** The element (the node) at position `i` has gone. */
  ghost predicate KeyGone(s: Shape, i: int, t: Shape) {
    0 <= i < |Keys(s)| && Keys(t) == Removed(Keys(s), i)
  }

  ghost predicate NodeGone(s: Shape, i: int, t: Shape) {
    0 <= i < |Nodes(s)| && Nodes(t) == Removed(Nodes(s), i)
  }

  lemma GoneThroughRotation(s: Shape, i: int, t: Shape)
    ensures KeyGone(s, i, t) ==> KeyGone(s, i, LeftBalance(t)) && KeyGone(s, i, RightBalance(t))
    ensures NodeGone(s, i, t) ==> NodeGone(s, i, LeftBalance(t)) && NodeGone(s, i, RightBalance(t))
  {
    LeftBalanceRearranges(t);
    RightBalanceRearranges(t);
  }

  lemma KeyGoneBelow(s: Shape, i: int, t: Shape)
    requires s.Bin?
    ensures KeyGone(s.l, i, t) ==> KeyGone(s, i, s.(l := t))
    ensures KeyGone(s.r, i, t) ==> KeyGone(s, |Keys(s.l)| + 1 + i, s.(r := t))
  {
    if KeyGone(s.l, i, t) { RemovedAround(Keys(s.l), s.key, Keys(s.r), i); }
    if KeyGone(s.r, i, t) { RemovedAround(Keys(s.l), s.key, Keys(s.r), |Keys(s.l)| + 1 + i); }
  }

  lemma NodeGoneBelow(s: Shape, i: int, t: Shape)
    requires s.Bin?
    ensures NodeGone(s.l, i, t) ==> NodeGone(s, i, s.(l := t))
    ensures NodeGone(s.r, i, t) ==> NodeGone(s, |Nodes(s.l)| + 1 + i, s.(r := t))
  {
    if NodeGone(s.l, i, t) { RemovedAround(Nodes(s.l), s.node, Nodes(s.r), i); }
    if NodeGone(s.r, i, t) { RemovedAround(Nodes(s.l), s.node, Nodes(s.r), |Nodes(s.l)| + 1 + i); }
  }

  lemma TopMinGoes(s: Shape, x: Blob)
    requires s.Bin? && s.r.Bin?
    ensures var u := Bin(s.node, x, s.l, DeleteMin(s.r));
            && NodeGone(s, |Nodes(s.l)| + 1, u)
            && (x == s.key ==> KeyGone(s, |Keys(s.l)| + 1, u))
            && (x == MinShape(s.r).key ==> KeyGone(s, |Keys(s.l)|, u))
  {
    var y, r := MinShape(s.r), DeleteMin(s.r);
    DeleteMinOrder(s.r);
    FirstGoes(Keys(s.l), s.key, y.key, Keys(r));
    FirstGoes(Nodes(s.l), s.node, y.node, Nodes(r));
  }

  lemma TopMaxGoes(s: Shape, x: Blob)
    requires s.Bin? && s.l.Bin?
    ensures var u := Bin(s.node, x, DeleteMax(s.l), s.r);
            && NodeGone(s, |Nodes(s.l)| - 1, u)
            && (x == s.key ==> KeyGone(s, |Keys(s.l)| - 1, u))
            && (x == MaxShape(s.l).key ==> KeyGone(s, |Keys(s.l)|, u))
  {
    var y, l := MaxShape(s.l), DeleteMax(s.l);
    DeleteMaxOrder(s.l);
    LastGoes(Keys(l), y.key, s.key, Keys(s.r));
    LastGoes(Nodes(l), y.node, s.node, Nodes(s.r));
  }

  /** What becomes of elements and nodes when the top itself is found. */
  lemma TopGoes(s: Shape, own: bool)
    requires s.Bin?
    ensures KeyGone(s, if own then |Keys(s.l)| else TopFreed(s), DeleteTop(s, own))
    ensures NodeGone(s, TopFreed(s), DeleteTop(s, own))
  {
    SameCount(s.l);
    if Height(s) == 1 {
      LeafGoes(s);
    } else if Factor(s) > 0 {
      var x := if own then MinShape(s.r).key else s.key;
      var u := Bin(s.node, x, s.l, DeleteMin(s.r));
      TopMinGoes(s, x);
      GoneThroughRotation(s, if own then |Keys(s.l)| else TopFreed(s), u);
      GoneThroughRotation(s, TopFreed(s), u);
    } else {
      var x := if own then MaxShape(s.l).key else s.key;
      var u := Bin(s.node, x, DeleteMax(s.l), s.r);
      TopMaxGoes(s, x);
      GoneThroughRotation(s, if own then |Keys(s.l)| else TopFreed(s), u);
      GoneThroughRotation(s, TopFreed(s), u);
    }
  }

  lemma LeafGoes(s: Shape)
    requires Height(s) == 1
    ensures s.Bin? && s.l.Nil? && s.r.Nil? && KeyGone(s, 0, Nil) && NodeGone(s, 0, Nil)
  {}

  /** The position that goes from the order of the elements: the found one, or with a foreign
      iterator the one whose node goes. */
  function LostPosition(cmp: Comparator, s: Shape, k: Blob, own: bool): nat {
    if own then Position(cmp, s, k) else FreedPosition(cmp, s, k)
  }

  /** Deletion removes one element from the order of the elements: the found one, or with a
      foreign iterator the one of the node that goes. */
  lemma {:induction false} DeleteRemoves(cmp: Comparator, s: Shape, k: Blob, own: bool)
    requires Find(cmp, s, k) != null
    ensures KeyGone(s, LostPosition(cmp, s, k, own), Delete(cmp, s, k, own))
  {
    var c := cmp(k, s.key);
    SameCount(s.l);
    if c < 0 {
      DeleteRemoves(cmp, s.l, k, own);
      KeyGoneBelow(s, LostPosition(cmp, s.l, k, own), Delete(cmp, s.l, k, own));
      GoneThroughRotation(s, LostPosition(cmp, s, k, own), s.(l := Delete(cmp, s.l, k, own)));
    } else if c > 0 {
      DeleteRemoves(cmp, s.r, k, own);
      KeyGoneBelow(s, LostPosition(cmp, s.r, k, own), Delete(cmp, s.r, k, own));
      GoneThroughRotation(s, LostPosition(cmp, s, k, own), s.(r := Delete(cmp, s.r, k, own)));
    } else {
      TopGoes(s, own);
    }
  }

  /** Deletion removes one node -- the found one or a neighbour -- from the order of the
      nodes. */
  lemma {:induction false} DeleteFrees(cmp: Comparator, s: Shape, k: Blob, own: bool)
    requires Find(cmp, s, k) != null
    ensures NodeGone(s, FreedPosition(cmp, s, k), Delete(cmp, s, k, own))
  {
    var c := cmp(k, s.key);
    if c < 0 {
      DeleteFrees(cmp, s.l, k, own);
      NodeGoneBelow(s, FreedPosition(cmp, s.l, k), Delete(cmp, s.l, k, own));
      GoneThroughRotation(s, FreedPosition(cmp, s, k), s.(l := Delete(cmp, s.l, k, own)));
    } else if c > 0 {
      DeleteFrees(cmp, s.r, k, own);
      NodeGoneBelow(s, FreedPosition(cmp, s.r, k), Delete(cmp, s.r, k, own));
      GoneThroughRotation(s, FreedPosition(cmp, s, k), s.(r := Delete(cmp, s.r, k, own)));
    } else {
      TopGoes(s, own);
    }
  }

  /** A foreign iterator deletes its element exactly when the found node is a leaf; otherwise it
      takes a neighbour's element away. */
  lemma {:induction false} ForeignHitsExactly(cmp: Comparator, s: Shape, k: Blob)
    requires Find(cmp, s, k) != null
    ensures FreedPosition(cmp, s, k) == Position(cmp, s, k) <==> Height(FoundAt(cmp, s, k)) == 1
    ensures FreedPosition(cmp, s, k) < |Keys(s)|
    ensures Handed(cmp, s, k) == if Height(FoundAt(cmp, s, k)) == 1 then k else Keys(s)[FreedPosition(cmp, s, k)]
  {
    SameCount(s.l);
    var c := cmp(k, s.key);
    if c < 0 {
      ForeignHitsExactly(cmp, s.l, k);
    } else if c > 0 {
      ForeignHitsExactly(cmp, s.r, k);
    } else if Height(s) > 1 {
      if Factor(s) > 0 { DeleteMinOrder(s.r); } else { DeleteMaxOrder(s.l); }
    }
  }

  // ---------- node by node, however unbalanced the tree ----------

  /** The walks look at the lean of every node on their way back, on the side that they came from:
      a node that leans to the right although its right side has just lost an element is repaired. */
  lemma WalksAtNode(s: Shape)
    requires s.Bin?
    ensures if s.r.Nil? then DeleteMax(s) == s.l else LiftedRight(s.(r := DeleteMax(s.r)), DeleteMax(s))
    ensures if s.l.Nil? then DeleteMin(s) == s.r else LiftedLeft(s.(l := DeleteMin(s.l)), DeleteMin(s))
  {
    if s.r.Bin? { RightBalanceLifts(s.(r := DeleteMax(s.r))); }
    if s.l.Bin? { LeftBalanceLifts(s.(l := DeleteMin(s.l))); }
  }

  /** Deletion of an element below a child looks at the other side. */
  lemma DeletionAtNode(cmp: Comparator, s: Shape, k: Blob, own: bool)
    requires Find(cmp, s, k) != null
    ensures cmp(k, s.key) < 0 ==> LiftedRight(s.(l := Delete(cmp, s.l, k, own)), Delete(cmp, s, k, own))
    ensures cmp(k, s.key) > 0 ==> LiftedLeft(s.(r := Delete(cmp, s.r, k, own)), Delete(cmp, s, k, own))
  {
    RightBalanceLifts(s.(l := Delete(cmp, s.l, k, own)));
    LeftBalanceLifts(s.(r := Delete(cmp, s.r, k, own)));
  }

  /** A found node gives way to the first element on its right if the right side is higher, else
      to the last one on its left; a leaf goes itself. */
  lemma DeletionAtTop(cmp: Comparator, s: Shape, k: Blob, own: bool)
    requires s.Bin? && cmp(k, s.key) == 0
    ensures s.l.Nil? && s.r.Nil? ==> Delete(cmp, s, k, own) == Nil
    ensures Height(s.r) > Height(s.l) ==>
              var x := if own then Keys(s.r)[0] else s.key;
              LiftedRight(Bin(s.node, x, s.l, DeleteMin(s.r)), Delete(cmp, s, k, own))
    ensures s.l.Bin? && Height(s.r) <= Height(s.l) ==>
              var x := if own then Keys(s.l)[|Keys(s.l)| - 1] else s.key;
              LiftedLeft(Bin(s.node, x, DeleteMax(s.l), s.r), Delete(cmp, s, k, own))
  {
    if Height(s.r) > Height(s.l) {
      DeleteMinOrder(s.r);
      RightBalanceLifts(Bin(s.node, if own then MinShape(s.r).key else s.key, s.l, DeleteMin(s.r)));
    } else if s.l.Bin? {
      DeleteMaxOrder(s.l);
      LeftBalanceLifts(Bin(s.node, if own then MaxShape(s.l).key else s.key, DeleteMax(s.l), s.r));
    }
  }

  lemma DeleteDistinct(cmp: Comparator, s: Shape, k: Blob, own: bool)
    requires Distinct(s) && Find(cmp, s, k) != null
    ensures Distinct(Delete(cmp, s, k, own)) && Repr(Delete(cmp, s, k, own)) <= Repr(s)
  {
    var t := Delete(cmp, s, k, own);
    DeleteFrees(cmp, s, k, own);
    NodesOfRepr(s);
    NodesOfRepr(t);
    DistinctMeansNoDuplicates(s);
    DistinctMeansNoDuplicates(t);
    RemovedElements(Nodes(s), FreedPosition(cmp, s, k));
  }

  lemma {:induction false} FindInside(cmp: Comparator, s: Shape, k: Blob)
    requires Find(cmp, s, k) != null
    ensures Find(cmp, s, k) in Repr(s)
  {
    if cmp(k, s.key) < 0 { FindInside(cmp, s.l, k); }
    if cmp(k, s.key) > 0 { FindInside(cmp, s.r, k); }
  }

  /** In an ordered tree an element leads to its own node, and to its own position. */
  lemma {:induction false} FindsItself(cmp: Comparator, s: Shape, i: nat)
    requires ThreeWay(cmp) && Sorted(cmp, Keys(s)) && i < |Keys(s)|
    ensures i < |Nodes(s)| && Find(cmp, s, Keys(s)[i]) == Nodes(s)[i]
    ensures Position(cmp, s, Keys(s)[i]) == i
  {
    var k, n := Keys(s)[i], |Keys(s.l)|;
    SameCount(s);
    SameCount(s.l);
    SortedAround(cmp, Keys(s.l), s.key, Keys(s.r));
    if i < n {
      assert k == Keys(s.l)[i];
      FindsItself(cmp, s.l, i);
    } else if i == n {
      Mirror(cmp, k, k);
    } else {
      assert k == Keys(s.r)[i - n - 1];
      Mirror(cmp, s.key, k);
      FindsItself(cmp, s.r, i - n - 1);
    }
  }

  /** What one deletion does to an ordered tree. */
  lemma DeleteKeepsOrder(cmp: Comparator, s: Shape, k: Blob, own: bool)
    requires ThreeWay(cmp) && Sorted(cmp, Keys(s)) && Distinct(s) && Find(cmp, s, k) != null
    ensures var (t, i) := (Delete(cmp, s, k, own), LostPosition(cmp, s, k, own));
            && i < |Keys(s)| && Keys(t) == Removed(Keys(s), i)
            && Sorted(cmp, Keys(t)) && Distinct(t) && Repr(t) <= Repr(s)
  {
    DeleteDistinct(cmp, s, k, own);
    DeleteRemoves(cmp, s, k, own);
  }
}
