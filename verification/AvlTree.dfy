/** The operations of containers/AVLTree.c on linked nodes. */
module AvlTree {
  import opened Checks
  import opened Ordering
  import opened Words
  import opened Sequences
  import opened AvlShape
  import opened AvlDeletion

  // ---------- the heap agrees with a shape ----------

  /** The node at the top of `s` holds the right element and points to the tops of the
      subtrees, which are linked themselves; its height is not looked at. */
  ghost predicate Hung(s: Shape)
    requires s.Bin?
    reads Repr(s)`data, Repr(s)`lchild, Repr(s)`rchild, Repr(s)`height
  {
    && s.node.data == s.key && s.node.lchild == Root(s.l) && s.node.rchild == Root(s.r)
    && Linked(s.l) && Linked(s.r)
  }

  /** The nodes of `s` hold its elements, are linked up as `s` says, and each stored height
      is one more than the larger of its children's. */
  ghost predicate Linked(s: Shape)
    reads Repr(s)`data, Repr(s)`lchild, Repr(s)`rchild, Repr(s)`height
    decreases s, 0
  {
    s.Bin? ==>
      && s.node.data == s.key && s.node.lchild == Root(s.l) && s.node.rchild == Root(s.r)
      && s.node.height == Height(s)
      && Linked(s.l) && Linked(s.r)
  }

  // ---------- heights ----------

  function HeightOf(p: Node?): int
    reads if p == null then {} else {p}
  {
    if p == null then 0 else p.height
  }

  function UpdatedHeight(n: Node): int
    reads n, n.lchild, n.rchild
  {
    (if HeightOf(n.lchild) >= HeightOf(n.rchild) then HeightOf(n.lchild) else HeightOf(n.rchild)) + 1
  }

  function BalanceFactor(n: Node): int
    reads n, n.lchild, n.rchild
  {
    HeightOf(n.rchild) - HeightOf(n.lchild)
  }

  lemma LinkedHeight(s: Shape)
    requires Linked(s)
    ensures HeightOf(Root(s)) == Height(s)
  {}

  lemma LinkedFactor(s: Shape)
    requires s.Bin? && Linked(s)
    ensures BalanceFactor(s.node) == Factor(s)
  {
    LinkedHeight(s.l);
    LinkedHeight(s.r);
  }

  lemma LinkTop(s: Shape)
    requires s.Bin? && Hung(s) && s.node.height == UpdatedHeight(s.node)
    ensures Linked(s)
  {
    LinkedHeight(s.l);
    LinkedHeight(s.r);
  }

  // ---------- rotations (containers/AVLTree.c:60-149) ----------

  /** The right child comes up: the field updates of the plain rotation to the left. */
  method LiftRight(root: Node, x: Node) returns (top: Node)
    requires root.rchild == x && root != x && {root, x} !! {root.lchild, x.lchild, x.rchild}
    modifies root`rchild, root`height, x`lchild, x`height
    ensures top == x && x.lchild == root && root.rchild == old(x.lchild)
    ensures root.height == UpdatedHeight(root) && x.height == UpdatedHeight(x)
  {
    root.rchild := x.lchild;
    x.lchild := root;
    root.height := UpdatedHeight(root);
    x.height := UpdatedHeight(x);
    return x;
  }

  /** The right child's left child comes up: the field updates of the "merge" case. */
  method LiftInnerLeft(root: Node, x: Node, y: Node) returns (top: Node)
    requires root.rchild == x && x.lchild == y && x.rchild == null
    requires root != x && root != y && x != y
    requires {root, x, y} !! {root.lchild, y.lchild, y.rchild}
    modifies root`rchild, root`height, x`lchild, x`height, y`lchild, y`rchild, y`height
    ensures top == y && y.lchild == root && y.rchild == x
    ensures root.rchild == old(y.lchild) && x.lchild == old(y.rchild)
    ensures root.height == UpdatedHeight(root) && x.height == UpdatedHeight(x) && y.height == UpdatedHeight(y)
  {
    var rrllchild := y.lchild;
    var rrlrchild := y.rchild;
    root.rchild := rrllchild;
    x.lchild := rrlrchild;
    y.lchild := root;
    y.rchild := x;
    root.height := UpdatedHeight(root);
    x.height := UpdatedHeight(x);
    y.height := UpdatedHeight(y);
    return y;
  }

  method MergeLeft(root: Node, ghost s: Shape) returns (top: Node)
    requires CanRotateLeft(s) && s.r.r.Nil? && root == s.node && Distinct(s) && Hung(s)
    modifies Repr(s)`lchild, Repr(s)`rchild, Repr(s)`height
    ensures top == Root(RotateLeft(s)) && Linked(RotateLeft(s))
  {
    assert allocated(Repr(s));
    ghost var x := s.r;
    ghost var y := x.l;
    assert Distinct(x) && Distinct(y) && Linked(y) && Linked(y.l) && Linked(y.r);
    assert y.node in Repr(s.r) && Repr(y.l) <= Repr(x.l) && Repr(y.r) <= Repr(x.l);
    top := LiftInnerLeft(root, root.rchild, root.rchild.lchild);
    assert Linked(s.l) == old(Linked(s.l)) && Linked(y.l) == old(Linked(y.l)) && Linked(y.r) == old(Linked(y.r));
    LinkTop(Bin(s.node, s.key, s.l, y.l));
    LinkTop(Bin(x.node, x.key, y.r, x.r));
    LinkTop(RotateLeft(s));
  }

  method SimpleLeftRotate(root: Node, ghost s: Shape) returns (top: Node)
    requires CanRotateLeft(s) && root == s.node && Distinct(s) && Hung(s)
    modifies Repr(s)`lchild, Repr(s)`rchild, Repr(s)`height
    ensures top == Root(RotateLeft(s)) && Linked(RotateLeft(s))
  {
    assert allocated(Repr(s));
    ghost var x := s.r;
    assert Distinct(x) && Linked(x.l) && Linked(x.r);
    if root.rchild.rchild == null {
      top := MergeLeft(root, s);
    } else {
      assert x.node in Repr(s.r) && Repr(x.l) <= Repr(s.r) && Repr(x.r) <= Repr(s.r);
      top := LiftRight(root, root.rchild);
      assert Linked(s.l) == old(Linked(s.l)) && Linked(x.l) == old(Linked(x.l)) && Linked(x.r) == old(Linked(x.r));
      LinkTop(Bin(s.node, s.key, s.l, x.l));
      LinkTop(RotateLeft(s));
    }
  }

  /** The left child comes up: the field updates of the plain rotation to the right. */
  method LiftLeft(root: Node, x: Node) returns (top: Node)
    requires root.lchild == x && root != x && {root, x} !! {root.rchild, x.lchild, x.rchild}
    modifies root`lchild, root`height, x`rchild, x`height
    ensures top == x && x.rchild == root && root.lchild == old(x.rchild)
    ensures root.height == UpdatedHeight(root) && x.height == UpdatedHeight(x)
  {
    root.lchild := x.rchild;
    x.rchild := root;
    root.height := UpdatedHeight(root);
    x.height := UpdatedHeight(x);
    return x;
  }

  method LiftInnerRight(root: Node, x: Node, y: Node) returns (top: Node)
    requires root.lchild == x && x.rchild == y && x.lchild == null
    requires root != x && root != y && x != y
    requires {root, x, y} !! {root.rchild, y.lchild, y.rchild}
    modifies root`lchild, root`height, x`rchild, x`height, y`lchild, y`rchild, y`height
    ensures top == y && y.lchild == x && y.rchild == root
    ensures x.rchild == old(y.lchild) && root.lchild == old(y.rchild)
    ensures root.height == UpdatedHeight(root) && x.height == UpdatedHeight(x) && y.height == UpdatedHeight(y)
  {
    var rlrlchild := y.lchild;
    var rlrrchild := y.rchild;
    x.rchild := rlrlchild;
    root.lchild := rlrrchild;
    y.lchild := x;
    y.rchild := root;
    root.height := UpdatedHeight(root);
    x.height := UpdatedHeight(x);
    y.height := UpdatedHeight(y);
    return y;
  }

  method MergeRight(root: Node, ghost s: Shape) returns (top: Node)
    requires CanRotateRight(s) && s.l.l.Nil? && root == s.node && Distinct(s) && Hung(s)
    modifies Repr(s)`lchild, Repr(s)`rchild, Repr(s)`height
    ensures top == Root(RotateRight(s)) && Linked(RotateRight(s))
  {
    assert allocated(Repr(s));
    ghost var x := s.l;
    ghost var y := x.r;
    assert Distinct(x) && Distinct(y) && Linked(y) && Linked(y.l) && Linked(y.r);
    assert y.node in Repr(s.l) && Repr(y.l) <= Repr(x.r) && Repr(y.r) <= Repr(x.r);
    top := LiftInnerRight(root, root.lchild, root.lchild.rchild);
    assert Linked(s.r) == old(Linked(s.r)) && Linked(y.l) == old(Linked(y.l)) && Linked(y.r) == old(Linked(y.r));
    LinkTop(Bin(x.node, x.key, x.l, y.l));
    LinkTop(Bin(s.node, s.key, y.r, s.r));
    LinkTop(RotateRight(s));
  }

  method SimpleRightRotate(root: Node, ghost s: Shape) returns (top: Node)
    requires CanRotateRight(s) && root == s.node && Distinct(s) && Hung(s)
    modifies Repr(s)`lchild, Repr(s)`rchild, Repr(s)`height
    ensures top == Root(RotateRight(s)) && Linked(RotateRight(s))
  {
    assert allocated(Repr(s));
    ghost var x := s.l;
    assert Distinct(x) && Linked(x.l) && Linked(x.r);
    if root.lchild.lchild == null {
      top := MergeRight(root, s);
    } else {
      assert x.node in Repr(s.l) && Repr(x.l) <= Repr(s.l) && Repr(x.r) <= Repr(s.l);
      top := LiftLeft(root, root.lchild);
      assert Linked(s.r) == old(Linked(s.r)) && Linked(x.l) == old(Linked(x.l)) && Linked(x.r) == old(Linked(x.r));
      LinkTop(Bin(s.node, s.key, x.r, s.r));
      LinkTop(RotateRight(s));
    }
  }

  method LeftRightRotate(root: Node, ghost s: Shape) returns (top: Node)
    requires LeftHeavyInside(s) && root == s.node && Distinct(s) && Hung(s)
    modifies Repr(s)`lchild, Repr(s)`rchild, Repr(s)`height
    ensures top == Root(AvlShape.LeftRightRotate(s)) && Linked(AvlShape.LeftRightRotate(s))
  {
    assert allocated(Repr(s));
    ghost var l := RotateLeft(s.l);
    RotateLeftRearranges(s.l);
    RearrangedNodes(s.l, l);
    var tmp := SimpleLeftRotate(root.lchild, s.l);
    assert Linked(s.r) == old(Linked(s.r));
    root.lchild := tmp;
    assert Linked(l) && Linked(s.r);
    top := SimpleRightRotate(root, s.(l := l));
  }

  method RightLeftRotate(root: Node, ghost s: Shape) returns (top: Node)
    requires RightHeavyInside(s) && root == s.node && Distinct(s) && Hung(s)
    modifies Repr(s)`lchild, Repr(s)`rchild, Repr(s)`height
    ensures top == Root(AvlShape.RightLeftRotate(s)) && Linked(AvlShape.RightLeftRotate(s))
  {
    assert allocated(Repr(s));
    ghost var r := RotateRight(s.r);
    RotateRightRearranges(s.r);
    RearrangedNodes(s.r, r);
    var tmp := SimpleRightRotate(root.rchild, s.r);
    assert Linked(s.l) == old(Linked(s.l));
    root.rchild := tmp;
    top := SimpleLeftRotate(root, s.(r := r));
  }

  // ---------- rebalancing (containers/AVLTree.c:174-195) ----------

  method LeftBalance(root: Node, ghost s: Shape, ghost q: seq<Node>) returns (top: Node)
    requires s.Bin? && root == s.node && Distinct(s) && Linked(s) && Threaded(q)
    modifies Repr(s)`lchild, Repr(s)`rchild, Repr(s)`height
    ensures top == Root(AvlShape.LeftBalance(s)) && Linked(AvlShape.LeftBalance(s)) && Threaded(q)
  {
    LinkedFactor(s);
    if BalanceFactor(root) <= -2 {
      LeaningLeft(s);
      assert Linked(s.l) && Linked(s.l.r);
      if s.l.r.Bin? { LinkedFactor(s.l.r); }
      if root.lchild != null && root.lchild.rchild != null && BalanceFactor(root.lchild.rchild) > 0 {
        top := LeftRightRotate(root, s);
      } else {
        top := SimpleRightRotate(root, s);
      }
    } else {
      top := root;
    }
  }

  method RightBalance(root: Node, ghost s: Shape, ghost q: seq<Node>) returns (top: Node)
    requires s.Bin? && root == s.node && Distinct(s) && Linked(s) && Threaded(q)
    modifies Repr(s)`lchild, Repr(s)`rchild, Repr(s)`height
    ensures top == Root(AvlShape.RightBalance(s)) && Linked(AvlShape.RightBalance(s)) && Threaded(q)
  {
    LinkedFactor(s);
    if BalanceFactor(root) >= 2 {
      LeaningRight(s);
      assert Linked(s.r) && Linked(s.r.l);
      if s.r.l.Bin? { LinkedFactor(s.r.l); }
      if root.rchild != null && root.rchild.lchild != null && BalanceFactor(root.rchild.lchild) < 0 {
        top := RightLeftRotate(root, s);
      } else {
        top := SimpleLeftRotate(root, s);
      }
    } else {
      top := root;
    }
  }

  // ---------- the thread (containers/AVLTree.c:151-172) ----------

  ghost function Elems(q: seq<Node>): set<Node> {
    set n | n in q
  }

  /** The element of `q` at `i`, or NULL past either end. */
  ghost function At(q: seq<Node>, i: int): Node? {
    if 0 <= i < |q| then q[i] else null
  }

  /** `prev` and `next` run through `q` from end to end. */
  ghost predicate Threaded(q: seq<Node>)
    reads Elems(q)`prev, Elems(q)`next
  {
    forall i {:trigger q[i].prev} {:trigger q[i].next} ::
      0 <= i < |q| ==> q[i].prev == At(q, i - 1) && q[i].next == At(q, i + 1)
  }

  method ListInsertLeft(parent: Node, child: Node, ghost q: seq<Node>, ghost i: nat)
    requires Threaded(q) && NoDuplicates(q) && i < |q| && q[i] == parent && child !in q
    modifies Elems(q)`prev, Elems(q)`next, child`prev, child`next
    ensures Threaded(Inserted(q, i, child))
  {
    assert q[i].prev == At(q, i - 1);
    assert i > 0 ==> q[i - 1] in Elems(q);
    if parent.prev != null {
      parent.prev.next := child;
    }
    child.prev := parent.prev;
    child.next := parent;
    parent.prev := child;
    ghost var t := Inserted(q, i, child);
    assert forall k :: 0 <= k < |t| ==> t[k] == if k < i then q[k] else if k == i then child else q[k - 1];
  }

  method ListInsertRight(parent: Node, child: Node, ghost q: seq<Node>, ghost i: nat)
    requires Threaded(q) && NoDuplicates(q) && i < |q| && q[i] == parent && child !in q
    modifies Elems(q)`prev, Elems(q)`next, child`prev, child`next
    ensures Threaded(Inserted(q, i + 1, child))
  {
    assert q[i].next == At(q, i + 1);
    assert i + 1 < |q| ==> q[i + 1] in Elems(q);
    if parent.next != null {
      parent.next.prev := child;
    }
    child.next := parent.next;
    child.prev := parent;
    parent.next := child;
    ghost var t := Inserted(q, i + 1, child);
    assert forall k :: 0 <= k < |t| ==> t[k] == if k <= i then q[k] else if k == i + 1 then child else q[k - 1];
    forall k | 0 <= k < |t| ensures t[k].prev == At(t, k - 1) && t[k].next == At(t, k + 1) {
      if k <= i {
        assert t[k] == q[k];
      } else if k > i + 1 {
        assert t[k] == q[k - 1];
      }
    }
  }

  method ListRemove(elem: Node, ghost q: seq<Node>, ghost i: nat)
    requires Threaded(q) && NoDuplicates(q) && i < |q| && q[i] == elem
    modifies Elems(q)`prev, Elems(q)`next
    ensures Threaded(Removed(q, i))
  {
    assert q[i].prev == At(q, i - 1);
    assert i > 0 ==> q[i - 1] in Elems(q);
    assert q[i].next == At(q, i + 1);
    assert i + 1 < |q| ==> q[i + 1] in Elems(q);
    if elem.prev != null { elem.prev.next := elem.next; }
    if elem.next != null { elem.next.prev := elem.prev; }
    ghost var t := Removed(q, i);
    assert forall k :: 0 <= k < |t| ==> t[k] == if k < i then q[k] else q[k + 1];
  }

  /** The thread as seen from subtree `s`: the nodes before it, its own, the nodes after it. */
  ghost function Whole(pre: seq<Node>, s: Shape, post: seq<Node>): seq<Node> {
    pre + Nodes(s) + post
  }

  // ---------- insertion (containers/AVLTree.c:198-276) ----------

  lemma LeafOnLeft(s: Shape, pre: seq<Node>, post: seq<Node>, leaf: Shape)
    requires s.Bin? && s.l.Nil? && leaf.Bin? && leaf.l.Nil? && leaf.r.Nil?
    ensures Whole(pre, s.(l := leaf), post) == Inserted(Whole(pre, s, post), |pre|, leaf.node)
    ensures |pre| < |Whole(pre, s, post)| && Whole(pre, s, post)[|pre|] == s.node
    ensures AvlShape.LeftBalance(s.(l := leaf)) == s.(l := leaf)
  {
    assert Nodes(s) == [s.node] + Nodes(s.r) && Nodes(s.(l := leaf)) == [leaf.node] + Nodes(s);
    assert Height(leaf) == 1;
  }

  lemma LeafOnRight(s: Shape, pre: seq<Node>, post: seq<Node>, leaf: Shape)
    requires s.Bin? && s.r.Nil? && leaf.Bin? && leaf.l.Nil? && leaf.r.Nil?
    ensures var i := |pre| + |Nodes(s)|;
            && Whole(pre, s.(r := leaf), post) == Inserted(Whole(pre, s, post), i, leaf.node)
            && 0 < i <= |Whole(pre, s, post)| && Whole(pre, s, post)[i - 1] == s.node
    ensures AvlShape.RightBalance(s.(r := leaf)) == s.(r := leaf)
  {
    assert Nodes(s) == Nodes(s.l) + [s.node] && Nodes(s.(r := leaf)) == Nodes(s) + [leaf.node];
    assert Height(leaf) == 1;
  }

  /** `root` gets `child` as its left child, and its height is brought up to date. */
  method AttachLeft(root: Node, child: Node?, ghost s: Shape, ghost l: Shape, ghost q: seq<Node>)
    requires s.Bin? && root == s.node && root.data == s.key && root.rchild == Root(s.r) && Linked(s.r)
    requires child == Root(l) && Linked(l) && root !in Repr(s.r) && root !in Repr(l) && Threaded(q)
    modifies root`lchild, root`height
    ensures Linked(s.(l := l)) && Threaded(q)
  {
    root.lchild := child;
    root.height := UpdatedHeight(root);
    assert Linked(l) == old(Linked(l)) && Linked(s.r) == old(Linked(s.r)) && Threaded(q) == old(Threaded(q));
    LinkTop(s.(l := l));
  }

  method AttachRight(root: Node, child: Node?, ghost s: Shape, ghost r: Shape, ghost q: seq<Node>)
    requires s.Bin? && root == s.node && root.data == s.key && root.lchild == Root(s.l) && Linked(s.l)
    requires child == Root(r) && Linked(r) && root !in Repr(s.l) && root !in Repr(r) && Threaded(q)
    modifies root`rchild, root`height
    ensures Linked(s.(r := r)) && Threaded(q)
  {
    root.rchild := child;
    root.height := UpdatedHeight(root);
    assert Linked(r) == old(Linked(r)) && Linked(s.l) == old(Linked(s.l)) && Threaded(q) == old(Threaded(q));
    LinkTop(s.(r := r));
  }

  /** A new leaf on the left of `root`. */
  method AddLeft(root: Node, elem: Blob, ghost s: Shape, ghost pre: seq<Node>, ghost post: seq<Node>) returns (n: Node)
    requires s.Bin? && s.l.Nil? && root == s.node && Distinct(s) && Linked(s)
    requires Threaded(Whole(pre, s, post)) && NoDuplicates(Whole(pre, s, post))
    modifies Repr(s)`lchild, Repr(s)`height
    modifies Elems(Whole(pre, s, post))`prev, Elems(Whole(pre, s, post))`next
    ensures fresh(n) && Linked(s.(l := Bin(n, elem, Nil, Nil)))
    ensures Threaded(Whole(pre, s.(l := Bin(n, elem, Nil, Nil)), post))
  {
    assert allocated(Repr(s)) && allocated(Elems(Whole(pre, s, post)));
    n := new Node(elem);
    ghost var leaf := Bin(n, elem, Nil, Nil);
    LeafOnLeft(s, pre, post, leaf);
    ListInsertLeft(root, n, Whole(pre, s, post), |pre|);
    assert Linked(s.r) == old(Linked(s.r));
    AttachLeft(root, n, s, leaf, Whole(pre, s.(l := leaf), post));
  }

  method AddRight(root: Node, elem: Blob, ghost s: Shape, ghost pre: seq<Node>, ghost post: seq<Node>) returns (n: Node)
    requires s.Bin? && s.r.Nil? && root == s.node && Distinct(s) && Linked(s)
    requires Threaded(Whole(pre, s, post)) && NoDuplicates(Whole(pre, s, post))
    modifies Repr(s)`rchild, Repr(s)`height
    modifies Elems(Whole(pre, s, post))`prev, Elems(Whole(pre, s, post))`next
    ensures fresh(n) && Linked(s.(r := Bin(n, elem, Nil, Nil)))
    ensures Threaded(Whole(pre, s.(r := Bin(n, elem, Nil, Nil)), post))
  {
    assert allocated(Repr(s)) && allocated(Elems(Whole(pre, s, post)));
    n := new Node(elem);
    ghost var leaf := Bin(n, elem, Nil, Nil);
    ghost var q, t := Whole(pre, s, post), Whole(pre, s.(r := leaf), post);
    LeafOnRight(s, pre, post, leaf);
    ghost var i: nat := |pre| + |Nodes(s)| - 1;
    assert q[i] == root && t == Inserted(q, i + 1, n);
    ListInsertRight(root, n, q, i);
    assert Linked(s.l) == old(Linked(s.l));
    AttachRight(root, n, s, leaf, t);
  }

  /** The thread around a subtree of `s`. */
  lemma WholeAround(pre: seq<Node>, s: Shape, post: seq<Node>, t: Shape)
    requires s.Bin?
    ensures Whole(pre, s.(l := t), post) == Whole(pre, t, [s.node] + Nodes(s.r) + post)
    ensures Whole(pre, s.(r := t), post) == Whole(pre + Nodes(s.l) + [s.node], t, post)
  {}

  method RecursiveInsert(cmp: Comparator, root: Node, elem: Blob, ghost s: Shape, ghost pre: seq<Node>,
                         ghost post: seq<Node>)
    returns (status: int, newroot: Node, ghost n: Node)
    requires s.Bin? && root == s.node && Distinct(s) && Linked(s)
    requires Threaded(Whole(pre, s, post)) && NoDuplicates(Whole(pre, s, post))
    modifies Repr(s)`lchild, Repr(s)`rchild, Repr(s)`height
    modifies Elems(Whole(pre, s, post))`prev, Elems(Whole(pre, s, post))`next
    ensures Find(cmp, s, elem) != null ==>
              status == -1 && newroot == root && Linked(s) && Threaded(Whole(pre, s, post))
    ensures Find(cmp, s, elem) == null ==>
              && status == 0 && fresh(n) && newroot == Root(Insert(cmp, s, elem, n))
              && Linked(Insert(cmp, s, elem, n)) && Threaded(Whole(pre, Insert(cmp, s, elem, n), post))
    decreases s, 1
  {
    var cmpresult := cmp(elem, root.data);
    if cmpresult == 0 {
      status, newroot, n := -1, root, root;
    } else if cmpresult < 0 {
      status, newroot, n := InsertBelowLeft(cmp, root, elem, s, pre, post);
    } else {
      status, newroot, n := InsertBelowRight(cmp, root, elem, s, pre, post);
    }
  }

  method InsertBelowLeft(cmp: Comparator, root: Node, elem: Blob, ghost s: Shape, ghost pre: seq<Node>,
                         ghost post: seq<Node>)
    returns (status: int, newroot: Node, ghost n: Node)
    requires s.Bin? && root == s.node && Distinct(s) && Linked(s) && cmp(elem, s.key) < 0
    requires Threaded(Whole(pre, s, post)) && NoDuplicates(Whole(pre, s, post))
    modifies Repr(s)`lchild, Repr(s)`rchild, Repr(s)`height
    modifies Elems(Whole(pre, s, post))`prev, Elems(Whole(pre, s, post))`next
    ensures Find(cmp, s, elem) != null ==>
              status == -1 && newroot == root && Linked(s) && Threaded(Whole(pre, s, post))
    ensures Find(cmp, s, elem) == null ==>
              && status == 0 && fresh(n) && newroot == Root(Insert(cmp, s, elem, n))
              && Linked(Insert(cmp, s, elem, n)) && Threaded(Whole(pre, Insert(cmp, s, elem, n), post))
    decreases s, 0
  {
    assert allocated(Repr(s)) && allocated(Elems(Whole(pre, s, post)));
    WholeAround(pre, s, post, s.l);
    assert s.(l := s.l) == s && Find(cmp, s, elem) == Find(cmp, s.l, elem);
    if root.lchild == null {
      n := AddLeft(root, elem, s, pre, post);
      status, newroot := 0, root;
      LeafOnLeft(s, pre, post, Bin(n, elem, Nil, Nil));
    } else {
      ghost var post' := [s.node] + Nodes(s.r) + post;
      var newleft;
      status, newleft, n := RecursiveInsert(cmp, root.lchild, elem, s.l, pre, post');
      assert Linked(s.r) == old(Linked(s.r));
      if status != 0 {
        assert Linked(s);
        assert Whole(pre, s, post) == Whole(pre, s.l, post');
        assert Threaded(Whole(pre, s, post));
        newroot := root;
        return;
      }
      ghost var l := Insert(cmp, s.l, elem, n);
      InsertDistinct(cmp, s.l, elem, n);
      WholeAround(pre, s, post, l);
      ghost var q := Whole(pre, s.(l := l), post);
      AttachLeft(root, newleft, s, l, q);
      newroot := LeftBalance(root, s.(l := l), q);
      LeftBalanceRearranges(s.(l := l));
    }
  }

  method InsertBelowRight(cmp: Comparator, root: Node, elem: Blob, ghost s: Shape, ghost pre: seq<Node>,
                          ghost post: seq<Node>)
    returns (status: int, newroot: Node, ghost n: Node)
    requires s.Bin? && root == s.node && Distinct(s) && Linked(s) && cmp(elem, s.key) > 0
    requires Threaded(Whole(pre, s, post)) && NoDuplicates(Whole(pre, s, post))
    modifies Repr(s)`lchild, Repr(s)`rchild, Repr(s)`height
    modifies Elems(Whole(pre, s, post))`prev, Elems(Whole(pre, s, post))`next
    ensures Find(cmp, s, elem) != null ==>
              status == -1 && newroot == root && Linked(s) && Threaded(Whole(pre, s, post))
    ensures Find(cmp, s, elem) == null ==>
              && status == 0 && fresh(n) && newroot == Root(Insert(cmp, s, elem, n))
              && Linked(Insert(cmp, s, elem, n)) && Threaded(Whole(pre, Insert(cmp, s, elem, n), post))
    decreases s, 0
  {
    assert allocated(Repr(s)) && allocated(Elems(Whole(pre, s, post)));
    WholeAround(pre, s, post, s.r);
    assert s.(r := s.r) == s && Find(cmp, s, elem) == Find(cmp, s.r, elem);
    if root.rchild == null {
      n := AddRight(root, elem, s, pre, post);
      status, newroot := 0, root;
      LeafOnRight(s, pre, post, Bin(n, elem, Nil, Nil));
    } else {
      ghost var pre' := pre + Nodes(s.l) + [s.node];
      var newright;
      status, newright, n := RecursiveInsert(cmp, root.rchild, elem, s.r, pre', post);
      assert Linked(s.l) == old(Linked(s.l));
      if status != 0 {
        assert Linked(s);
        assert Whole(pre, s, post) == Whole(pre', s.r, post);
        assert Threaded(Whole(pre, s, post));
        newroot := root;
        return;
      }
      ghost var r := Insert(cmp, s.r, elem, n);
      InsertDistinct(cmp, s.r, elem, n);
      WholeAround(pre, s, post, r);
      ghost var q := Whole(pre, s.(r := r), post);
      AttachRight(root, newright, s, r, q);
      newroot := RightBalance(root, s.(r := r), q);
      RightBalanceRearranges(s.(r := r));
    }
  }

  // ---------- deletion (containers/AVLTree.c:320-406) ----------

  lemma TakeOut(pre: seq<Node>, a: seq<Node>, x: Node, b: seq<Node>, post: seq<Node>)
    ensures |pre + a| < |pre + (a + [x] + b) + post| && (pre + (a + [x] + b) + post)[|pre + a|] == x
    ensures Removed(pre + (a + [x] + b) + post, |pre + a|) == pre + (a + b) + post
  {
    assert pre + (a + [x] + b) + post == (pre + a) + [x] + (b + post);
    assert pre + (a + b) + post == (pre + a) + (b + post);
    RemovedAround(pre + a, x, b + post, |pre + a|);
  }

  lemma WithoutMax(s: Shape, pre: seq<Node>, post: seq<Node>)
    requires s.Bin?
    ensures var i := |pre + Nodes(DeleteMax(s))|;
            && i < |Whole(pre, s, post)| && Whole(pre, s, post)[i] == MaxShape(s).node
            && Whole(pre, DeleteMax(s), post) == Removed(Whole(pre, s, post), i)
  {
    DeleteMaxOrder(s);
    var q, m := Nodes(DeleteMax(s)), MaxShape(s).node;
    TakeOut(pre, q, m, [], post);
    assert q + [m] + [] == Nodes(s) && q + [] == q;
  }

  lemma WithoutMin(s: Shape, pre: seq<Node>, post: seq<Node>)
    requires s.Bin?
    ensures |pre| < |Whole(pre, s, post)| && Whole(pre, s, post)[|pre|] == MinShape(s).node
    ensures Whole(pre, DeleteMin(s), post) == Removed(Whole(pre, s, post), |pre|)
  {
    DeleteMinOrder(s);
    var q, m := Nodes(DeleteMin(s)), MinShape(s).node;
    TakeOut(pre, [], m, q, post);
    assert [] + [m] + q == Nodes(s) && [] + q == q && pre + [] == pre;
  }

  /** `elem` and the outgoing node `root` swap their elements; `root` leaves the thread. */
  method TakeOver(root: Node, elem: Node, ghost q: seq<Node>, ghost i: nat)
    requires root != elem
    requires Threaded(q) && NoDuplicates(q) && i < |q| && q[i] == root
    modifies root`data, elem`data, Elems(q)`prev, Elems(q)`next
    ensures elem.data == old(root.data) && root.data == old(elem.data)
    ensures Threaded(Removed(q, i))
  {
    var tmp := root.data;
    root.data := elem.data;
    elem.data := tmp;
    assert Threaded(q) == old(Threaded(q));
    ListRemove(root, q, i);
  }

  /** Frees the rightmost node below `root` after handing its element to `elem`. */
  method DeleteLeftMax(root: Node, elem: Node, ghost s: Shape, ghost pre: seq<Node>, ghost post: seq<Node>)
    returns (remain: Node?)
    requires s.Bin? && root == s.node && Distinct(s) && Linked(s) && elem !in Repr(s)
    requires Threaded(Whole(pre, s, post)) && NoDuplicates(Whole(pre, s, post))
    modifies Repr(s)`lchild, Repr(s)`rchild, Repr(s)`height, MaxShape(s).node`data, elem`data
    modifies Elems(Whole(pre, s, post))`prev, Elems(Whole(pre, s, post))`next
    ensures elem.data == MaxShape(s).key
    ensures remain == Root(DeleteMax(s)) && Linked(DeleteMax(s))
    ensures Threaded(Whole(pre, DeleteMax(s), post))
    decreases s
  {
    assert allocated(Repr(s)) && allocated(Elems(Whole(pre, s, post)));
    if root.rchild != null {
      ghost var pre' := pre + Nodes(s.l) + [s.node];
      ghost var r := DeleteMax(s.r);
      WholeAround(pre, s, post, s.r);
      assert s.(r := s.r) == s;
      DeleteMaxDistinct(s.r);
      var newroot := DeleteLeftMax(root.rchild, elem, s.r, pre', post);
      assert Linked(s.l) == old(Linked(s.l));
      WholeAround(pre, s, post, r);
      ghost var q := Whole(pre, s.(r := r), post);
      AttachRight(root, newroot, s, r, q);
      remain := RightBalance(root, s.(r := r), q);
      RightBalanceRearranges(s.(r := r));
    } else {
      WithoutMax(s, pre, post);
      remain := root.lchild;
      TakeOver(root, elem, Whole(pre, s, post), |pre + Nodes(DeleteMax(s))|);
      assert Linked(s.l) == old(Linked(s.l));
    }
  }

  /** Frees the leftmost node below `root` after handing its element to `elem`. */
  method DeleteRightMin(root: Node, elem: Node, ghost s: Shape, ghost pre: seq<Node>, ghost post: seq<Node>)
    returns (remain: Node?)
    requires s.Bin? && root == s.node && Distinct(s) && Linked(s) && elem !in Repr(s)
    requires Threaded(Whole(pre, s, post)) && NoDuplicates(Whole(pre, s, post))
    modifies Repr(s)`lchild, Repr(s)`rchild, Repr(s)`height, MinShape(s).node`data, elem`data
    modifies Elems(Whole(pre, s, post))`prev, Elems(Whole(pre, s, post))`next
    ensures elem.data == MinShape(s).key
    ensures remain == Root(DeleteMin(s)) && Linked(DeleteMin(s))
    ensures Threaded(Whole(pre, DeleteMin(s), post))
    decreases s
  {
    assert allocated(Repr(s)) && allocated(Elems(Whole(pre, s, post)));
    if root.lchild != null {
      ghost var post' := [s.node] + Nodes(s.r) + post;
      ghost var l := DeleteMin(s.l);
      WholeAround(pre, s, post, s.l);
      assert s.(l := s.l) == s;
      DeleteMinDistinct(s.l);
      var newroot := DeleteRightMin(root.lchild, elem, s.l, pre, post');
      assert Linked(s.r) == old(Linked(s.r));
      WholeAround(pre, s, post, l);
      ghost var q := Whole(pre, s.(l := l), post);
      AttachLeft(root, newroot, s, l, q);
      remain := LeftBalance(root, s.(l := l), q);
      LeftBalanceRearranges(s.(l := l));
    } else {
      WithoutMin(s, pre, post);
      remain := root.rchild;
      TakeOver(root, elem, Whole(pre, s, post), |pre|);
      assert Linked(s.r) == old(Linked(s.r));
    }
  }

  /** The iterator's node is the one that its element leads to, or it is not in the tree. */
  ghost predicate Stands(cmp: Comparator, elem: Node, s: Shape, own: bool)
    reads elem
  {
    if own then Find(cmp, s, elem.data) == elem else elem !in Repr(s)
  }

  /** `root` holds the element to delete. */
  method DeleteHere(cmp: Comparator, root: Node, elem: Node, ghost s: Shape, ghost pre: seq<Node>,
                    ghost post: seq<Node>, ghost own: bool) returns (newroot: Node?)
    requires s.Bin? && root == s.node && Distinct(s) && Linked(s) && (if own then elem == root else elem !in Repr(s))
    requires Threaded(Whole(pre, s, post)) && NoDuplicates(Whole(pre, s, post))
    modifies Repr(s)`data, Repr(s)`lchild, Repr(s)`rchild, Repr(s)`height, elem`data
    modifies Elems(Whole(pre, s, post))`prev, Elems(Whole(pre, s, post))`next
    ensures var t := DeleteTop(s, own);
            newroot == Root(t) && Linked(t) && Threaded(Whole(pre, t, post))
    ensures elem.data == if Height(s) == 1 then old(elem.data)
                         else if Factor(s) > 0 then MinShape(s.r).key else MaxShape(s.l).key
  {
    assert allocated(Repr(s)) && allocated(Elems(Whole(pre, s, post)));
    LinkedFactor(s);
    if root.height == 1 {
      newroot := null;
      TakeOut(pre, [], root, [], post);
      assert [] + [root] + [] == Nodes(s);
      ListRemove(root, Whole(pre, s, post), |pre|);
    } else if BalanceFactor(root) > 0 {
      newroot := ReplaceFromRight(root, elem, s, pre, post, own);
    } else {
      newroot := ReplaceFromLeft(root, elem, s, pre, post, own);
    }
  }

  /** The smallest element on the right goes to `elem`, and its node goes. */
  method ReplaceFromRight(root: Node, elem: Node, ghost s: Shape, ghost pre: seq<Node>, ghost post: seq<Node>,
                          ghost own: bool) returns (newroot: Node?)
    requires s.Bin? && root == s.node && Distinct(s) && Linked(s) && (if own then elem == root else elem !in Repr(s))
    requires Threaded(Whole(pre, s, post)) && NoDuplicates(Whole(pre, s, post)) && s.r.Bin?
    modifies Repr(s)`data, Repr(s)`lchild, Repr(s)`rchild, Repr(s)`height, elem`data
    modifies Elems(Whole(pre, s, post))`prev, Elems(Whole(pre, s, post))`next
    ensures var t := AvlShape.RightBalance(Bin(s.node, if own then MinShape(s.r).key else s.key, s.l, DeleteMin(s.r)));
            newroot == Root(t) && Linked(t) && Threaded(Whole(pre, t, post)) && elem.data == MinShape(s.r).key
  {
    assert allocated(Repr(s)) && allocated(Elems(Whole(pre, s, post)));
    ghost var pre' := pre + Nodes(s.l) + [s.node];
    ghost var r := DeleteMin(s.r);
    WholeAround(pre, s, post, s.r);
    assert s.(r := s.r) == s;
    DeleteMinDistinct(s.r);
    var newright := DeleteRightMin(root.rchild, elem, s.r, pre', post);
    assert Linked(s.l) == old(Linked(s.l));
    ghost var t := Bin(s.node, if own then MinShape(s.r).key else s.key, s.l, s.r);
    WholeAround(pre, t, post, r);
    ghost var q := Whole(pre, t.(r := r), post);
    AttachRight(root, newright, t, r, q);
    newroot := RightBalance(root, t.(r := r), q);
    RightBalanceRearranges(t.(r := r));
  }

  /** The largest element on the left goes to `elem`, and its node goes. */
  method ReplaceFromLeft(root: Node, elem: Node, ghost s: Shape, ghost pre: seq<Node>, ghost post: seq<Node>,
                         ghost own: bool) returns (newroot: Node?)
    requires s.Bin? && root == s.node && Distinct(s) && Linked(s) && (if own then elem == root else elem !in Repr(s))
    requires Threaded(Whole(pre, s, post)) && NoDuplicates(Whole(pre, s, post)) && s.l.Bin?
    modifies Repr(s)`data, Repr(s)`lchild, Repr(s)`rchild, Repr(s)`height, elem`data
    modifies Elems(Whole(pre, s, post))`prev, Elems(Whole(pre, s, post))`next
    ensures var t := AvlShape.LeftBalance(Bin(s.node, if own then MaxShape(s.l).key else s.key, DeleteMax(s.l), s.r));
            newroot == Root(t) && Linked(t) && Threaded(Whole(pre, t, post)) && elem.data == MaxShape(s.l).key
  {
    assert allocated(Repr(s)) && allocated(Elems(Whole(pre, s, post)));
    ghost var post' := [s.node] + Nodes(s.r) + post;
    ghost var l := DeleteMax(s.l);
    WholeAround(pre, s, post, s.l);
    assert s.(l := s.l) == s;
    DeleteMaxDistinct(s.l);
    var newleft := DeleteLeftMax(root.lchild, elem, s.l, pre, post');
    assert Linked(s.r) == old(Linked(s.r));
    ghost var t := Bin(s.node, if own then MaxShape(s.l).key else s.key, s.l, s.r);
    WholeAround(pre, t, post, l);
    ghost var q := Whole(pre, t.(l := l), post);
    AttachLeft(root, newleft, t, l, q);
    newroot := LeftBalance(root, t.(l := l), q);
    LeftBalanceRearranges(t.(l := l));
  }

  method RecursiveDelete(cmp: Comparator, root: Node, elem: Node, ghost s: Shape, ghost pre: seq<Node>,
                         ghost post: seq<Node>, ghost own: bool)
    returns (status: int, newroot: Node?)
    requires s.Bin? && root == s.node && Distinct(s) && Linked(s) && Stands(cmp, elem, s, own)
    requires Threaded(Whole(pre, s, post)) && NoDuplicates(Whole(pre, s, post))
    modifies Repr(s)`data, Repr(s)`lchild, Repr(s)`rchild, Repr(s)`height, elem`data
    modifies Elems(Whole(pre, s, post))`prev, Elems(Whole(pre, s, post))`next
    ensures old(Find(cmp, s, elem.data)) == null ==>
              && status == -1 && newroot == root && Linked(s) && Threaded(Whole(pre, s, post))
              && elem.data == old(elem.data)
    ensures old(Find(cmp, s, elem.data)) != null ==>
              var t := Delete(cmp, s, old(elem.data), own);
              && status == 0 && newroot == Root(t) && Linked(t) && Threaded(Whole(pre, t, post))
              && elem.data == Handed(cmp, s, old(elem.data))
    decreases s, 1
  {
    assert allocated(Repr(s)) && allocated(Elems(Whole(pre, s, post)));
    var cmpresult := cmp(elem.data, root.data);
    if cmpresult == 0 {
      newroot := DeleteHere(cmp, root, elem, s, pre, post, own);
      HandedAtTop(cmp, s, old(elem.data));
      status := 0;
    } else if cmpresult < 0 {
      if root.lchild == null {
        assert Find(cmp, s, elem.data) == null;
        status, newroot := -1, root;
      } else {
        status, newroot := DeleteBelowLeft(cmp, root, elem, s, pre, post, own);
      }
    } else {
      if root.rchild == null {
        assert Find(cmp, s, elem.data) == null;
        status, newroot := -1, root;
      } else {
        status, newroot := DeleteBelowRight(cmp, root, elem, s, pre, post, own);
      }
    }
  }

  method DeleteBelowLeft(cmp: Comparator, root: Node, elem: Node, ghost s: Shape, ghost pre: seq<Node>,
                         ghost post: seq<Node>, ghost own: bool)
    returns (status: int, newroot: Node?)
    requires s.Bin? && root == s.node && Distinct(s) && Linked(s) && s.l.Bin? && cmp(elem.data, s.key) < 0
    requires Threaded(Whole(pre, s, post)) && NoDuplicates(Whole(pre, s, post)) && Stands(cmp, elem, s, own)
    modifies Repr(s)`data, Repr(s)`lchild, Repr(s)`rchild, Repr(s)`height, elem`data
    modifies Elems(Whole(pre, s, post))`prev, Elems(Whole(pre, s, post))`next
    ensures old(Find(cmp, s, elem.data)) == null ==>
              && status == -1 && newroot == root && Linked(s) && Threaded(Whole(pre, s, post))
              && elem.data == old(elem.data)
    ensures old(Find(cmp, s, elem.data)) != null ==>
              var t := Delete(cmp, s, old(elem.data), own);
              && status == 0 && newroot == Root(t) && Linked(t) && Threaded(Whole(pre, t, post))
              && elem.data == Handed(cmp, s, old(elem.data))
    decreases s, 0
  {
    assert allocated(Repr(s)) && allocated(Elems(Whole(pre, s, post)));
    ghost var post' := [s.node] + Nodes(s.r) + post;
    WholeAround(pre, s, post, s.l);
    assert s.(l := s.l) == s && Find(cmp, s, elem.data) == Find(cmp, s.l, elem.data);
    if own { FindInside(cmp, s.l, elem.data); }
    var newleft;
    status, newleft := RecursiveDelete(cmp, root.lchild, elem, s.l, pre, post', own);
    assert Linked(s.r) == old(Linked(s.r));
    newroot := root;
    if status != 0 {
      assert Linked(s);
      return;
    }
    ghost var l := Delete(cmp, s.l, old(elem.data), own);
    DeleteDistinct(cmp, s.l, old(elem.data), own);
    WholeAround(pre, s, post, l);
    ghost var q := Whole(pre, s.(l := l), post);
    AttachLeft(root, newleft, s, l, q);
    newroot := RightBalance(root, s.(l := l), q);
    RightBalanceRearranges(s.(l := l));
  }

  method DeleteBelowRight(cmp: Comparator, root: Node, elem: Node, ghost s: Shape, ghost pre: seq<Node>,
                          ghost post: seq<Node>, ghost own: bool)
    returns (status: int, newroot: Node?)
    requires s.Bin? && root == s.node && Distinct(s) && Linked(s) && s.r.Bin? && cmp(elem.data, s.key) > 0
    requires Threaded(Whole(pre, s, post)) && NoDuplicates(Whole(pre, s, post)) && Stands(cmp, elem, s, own)
    modifies Repr(s)`data, Repr(s)`lchild, Repr(s)`rchild, Repr(s)`height, elem`data
    modifies Elems(Whole(pre, s, post))`prev, Elems(Whole(pre, s, post))`next
    ensures old(Find(cmp, s, elem.data)) == null ==>
              && status == -1 && newroot == root && Linked(s) && Threaded(Whole(pre, s, post))
              && elem.data == old(elem.data)
    ensures old(Find(cmp, s, elem.data)) != null ==>
              var t := Delete(cmp, s, old(elem.data), own);
              && status == 0 && newroot == Root(t) && Linked(t) && Threaded(Whole(pre, t, post))
              && elem.data == Handed(cmp, s, old(elem.data))
    decreases s, 0
  {
    assert allocated(Repr(s)) && allocated(Elems(Whole(pre, s, post)));
    ghost var pre' := pre + Nodes(s.l) + [s.node];
    WholeAround(pre, s, post, s.r);
    assert s.(r := s.r) == s && Find(cmp, s, elem.data) == Find(cmp, s.r, elem.data);
    if own { FindInside(cmp, s.r, elem.data); }
    var newright;
    status, newright := RecursiveDelete(cmp, root.rchild, elem, s.r, pre', post, own);
    assert Linked(s.l) == old(Linked(s.l));
    newroot := root;
    if status != 0 {
      assert Linked(s);
      return;
    }
    ghost var r := Delete(cmp, s.r, old(elem.data), own);
    DeleteDistinct(cmp, s.r, old(elem.data), own);
    WholeAround(pre, s, post, r);
    ghost var q := Whole(pre, s.(r := r), post);
    AttachRight(root, newright, s, r, q);
    newroot := LeftBalance(root, s.(r := r), q);
    LeftBalanceRearranges(s.(r := r));
  }

  // ---------- the tree as a whole ----------

  lemma {:induction false} LinkedData(s: Shape, i: nat)
    requires Linked(s) && i < |Keys(s)|
    ensures i < |Nodes(s)| && Nodes(s)[i] in Repr(s) && Nodes(s)[i].data == Keys(s)[i]
  {
    NodesOfRepr(s);
    SameCount(s);
    SameCount(s.l);
    if i < |Keys(s.l)| { LinkedData(s.l, i); }
    if i > |Keys(s.l)| { LinkedData(s.r, i - |Keys(s.l)| - 1); }
  }

  lemma WholeAlone(s: Shape)
    ensures Whole([], s, []) == Nodes(s)
  {}

  /** A whole tree: linked up, threaded through all its nodes, and in order. */
  ghost predicate Sound(cmp: Comparator, root: Node?, s: Shape)
    reads Repr(s)
  {
    && root == Root(s) && Distinct(s) && Linked(s)
    && (NodesOfRepr(s); Threaded(Nodes(s)))
    && Sorted(cmp, Keys(s))
  }

  /** A whole tree and the 32-bit number of its elements. */
  ghost function Condition(cmp: Comparator, root: Node?, size: nat, s: Shape): Health
    reads Repr(s)
  {
    if Sound(cmp, root, s) && size == Wrap(|Keys(s)|) then Health.Sound else Health.Unsound
  }

  /** Insertion into a whole tree, whose thread is its own nodes. */
  method InsertFromRoot(cmp: Comparator, root: Node, elem: Blob, ghost size: nat, ghost s: Shape)
    returns (status: int, newroot: Node, ghost t: Shape, ghost n: Node)
    requires ThreeWay(cmp) && Condition(cmp, root, size, s).Sound?
    modifies Repr(s)
    ensures Condition(cmp, newroot, if status == 0 then Wrap(size + 1) else size, t).Sound?
    ensures forall m :: m in Repr(t) ==> m in Repr(s) || fresh(m)
    ensures Has(cmp, Keys(s), elem) ==> status == -1 && t == s
    ensures !Has(cmp, Keys(s), elem) ==>
              && status == 0 && fresh(n) && n !in Repr(s) && t == Insert(cmp, s, elem, n)
              && Keys(t) == Placed(cmp, Keys(s), elem)
  {
    assert allocated(Repr(s));
    FindIsComplete(cmp, s, elem);
    NodesOfRepr(s);
    DistinctMeansNoDuplicates(s);
    WholeAlone(s);
    status, newroot, n := RecursiveInsert(cmp, root, elem, s, [], []);
    if status == 0 {
      t := Insert(cmp, s, elem, n);
      WholeAlone(t);
      InsertKeepsOrder(cmp, s, elem, n);
      CountUp(size, |Keys(s)|, Wrap(size + 1), |Keys(t)|);
    } else {
      t := s;
    }
  }

  /** Deletion from a whole tree. */
  method DeleteFromRoot(cmp: Comparator, root: Node, elem: Node, ghost size: nat, ghost s: Shape, ghost own: bool)
    returns (status: int, newroot: Node?, ghost t: Shape)
    requires ThreeWay(cmp) && Condition(cmp, root, size, s).Sound? && Stands(cmp, elem, s, own)
    modifies Repr(s), elem`data
    ensures status != 0 ==> newroot == root
    ensures Condition(cmp, newroot, if status == 0 then Wrap(size - 1) else size, t).Sound? && Repr(t) <= Repr(s)
    ensures old(Find(cmp, s, elem.data)) == null ==> status == -1 && t == s && elem.data == old(elem.data)
    ensures old(Find(cmp, s, elem.data)) != null ==>
              var k := old(elem.data);
              && status == 0 && t == Delete(cmp, s, k, own) && elem.data == Handed(cmp, s, k)
              && LostPosition(cmp, s, k, own) < |Keys(s)| && Keys(t) == Removed(Keys(s), LostPosition(cmp, s, k, own))
  {
    NodesOfRepr(s);
    DistinctMeansNoDuplicates(s);
    WholeAlone(s);
    ghost var k := elem.data;
    status, newroot := RecursiveDelete(cmp, root, elem, s, [], [], own);
    if status == 0 {
      t := Delete(cmp, s, k, own);
      WholeAlone(t);
      DeleteKeepsOrder(cmp, s, k, own);
      CountDown(size, |Keys(s)|, Wrap(size - 1), |Keys(t)|);
    } else {
      t := s;
    }
  }

  /** The descriptor: a root, a count and a comparator. */
  class Tree {
    var root: Node?
    var size: nat
    const comp: Comparator
    /** The descriptor's pointer to the comparator has been cleared. */
    var compcleared: bool
    ghost var shape: Shape

    ghost predicate Valid()
      reads this, Repr(shape)
    {
      !compcleared && ThreeWay(comp) && Condition(comp, root, size, shape).Sound?
    }

    /** The elements in ascending order. */
    ghost function Elements(): seq<Blob>
      reads this
    {
      Keys(shape)
    }

    /** A node of the tree is found again by searching for its element. */
    lemma SearchFindsNode(n: Node)
      requires Valid() && n in Repr(shape)
      ensures var i := IndexOf(Nodes(shape), n);
              && i < |Nodes(shape)| == |Elements()| && n.data == Elements()[i]
              && Find(comp, shape, n.data) == n && Position(comp, shape, n.data) == i
    {
      NodesOfRepr(shape);
      SameCount(shape);
      LinkedData(shape, IndexOf(Nodes(shape), n));
      FindsItself(comp, shape, IndexOf(Nodes(shape), n));
    }

    /** Where an iterator stands, in this tree or outside. */
    lemma StandsSomewhere(n: Node)
      requires Valid()
      ensures Stands(comp, n, shape, n in Repr(shape))
      ensures Find(comp, shape, n.data) != null <==> Has(comp, Elements(), n.data)
      ensures n in Repr(shape) ==>
                && Find(comp, shape, n.data) == n
                && LostPosition(comp, shape, n.data, true) == IndexOf(Nodes(shape), n) < |Elements()|
    {
      FindIsComplete(comp, shape, n.data);
      if n in Repr(shape) { SearchFindsNode(n); }
    }

    constructor (comp: Comparator)
      requires ThreeWay(comp)
      ensures Valid() && shape == Nil && this.comp == comp
    {
      this.comp := comp;
      root, size, compcleared, shape := null, 0, false, Nil;
    }

    /** Walks down from the root (containers/AVLTree.c:38-56). */
    method PtrAt(elem: Blob) returns (status: int, node: Node?)
      requires Valid()
      ensures status == 0 <==> Has(comp, Elements(), elem)
      ensures status != 0 ==> status == -1 && node == null
      ensures status == 0 ==> node in Repr(shape) && comp(elem, node.data) == 0
      ensures node == Find(comp, shape, elem)
    {
      FindIsComplete(comp, shape, elem);
      var searchreach := root;
      ghost var t := shape;
      while searchreach != null
        invariant searchreach == Root(t) && Linked(t) && Repr(t) <= Repr(shape)
        invariant Find(comp, t, elem) == Find(comp, shape, elem)
        decreases t
      {
        var cmpresult := comp(elem, searchreach.data);
        if cmpresult == 0 {
          return 0, searchreach;
        }
        if cmpresult < 0 {
          searchreach, t := searchreach.lchild, t.l;
        } else {
          searchreach, t := searchreach.rchild, t.r;
        }
      }
      return -1, null;
    }

    /** Adds `elem` unless an equal element is there (containers/AVLTree.c:278-308). */
    method Insert(elem: Blob) returns (status: int, ghost node: Node?)
      requires Valid()
      modifies this`root, this`size, this`shape, Repr(shape)
      ensures Valid()
      ensures forall n :: n in Repr(shape) ==> n in old(Repr(shape)) || fresh(n)
      ensures old(Has(comp, Elements(), elem)) ==> status == -1 && shape == old(shape)
      ensures !old(Has(comp, Elements(), elem)) ==>
                && status == 0 && Elements() == Placed(comp, old(Elements()), elem)
                && node != null && fresh(node) && shape == AvlShape.Insert(comp, old(shape), elem, node)
    {
      if root == null {
        root := new Node(elem);
        size := 1;
        shape := Bin(root, elem, Nil, Nil);
        return 0, root;
      }
      ghost var t;
      var newroot;
      status, newroot, t, node := InsertFromRoot(comp, root, elem, size, shape);
      if status != 0 {
        return -1, null;
      }
      Install(newroot, Wrap(size + 1), t);
    }

    /** Stores the new root and the new count. */
    method Install(newroot: Node?, newsize: nat, ghost t: Shape)
      requires !compcleared && ThreeWay(comp) && Condition(comp, newroot, newsize, t).Sound?
      modifies this`root, this`size, this`shape
      ensures Valid() && root == newroot && size == newsize && shape == t
    {
      root, size, shape := newroot, newsize, t;
      assert Condition(comp, newroot, newsize, t) == old(Condition(comp, newroot, newsize, t));
    }

    /** Removes the element an iterator stands on (containers/AVLTree.c:408-416).  The iterator of
        another tree removes an equal element if that one is in a leaf; otherwise a neighbour's
        element moves into the foreign node (see ForeignHitsExactly). */
    method Erase(elem: Node) returns (status: int)
      requires Valid()
      modifies this`root, this`size, this`shape, Repr(shape), elem`data
      ensures Valid() && Repr(shape) <= old(Repr(shape))
      ensures status == if old(size) != 0 && old(Has(comp, Elements(), elem.data)) then 0 else -1
      ensures status == -1 ==> shape == old(shape) && elem.data == old(elem.data)
      ensures status == 0 ==>
                var (s, k, own) := (old(shape), old(elem.data), elem in old(Repr(shape)));
                var i := LostPosition(comp, s, k, own);
                && Find(comp, s, k) != null && shape == Delete(comp, s, k, own) && elem.data == Handed(comp, s, k)
                && i < |old(Elements())| && Elements() == Removed(old(Elements()), i)
                && (own ==> i == IndexOf(old(Nodes(shape)), elem))
    {
      StandsSomewhere(elem);
      status := EraseNode(elem);
      if status == 0 {
        assert Find(comp, old(shape), old(elem.data)) != null;
        DeleteRemoves(comp, old(shape), old(elem.data), elem in old(Repr(shape)));
      }
    }

    lemma NotEmpty()
      requires Valid() && size != 0
      ensures root != null
    {}

    /** The tree afterwards; DeleteRemoves says what that does to the elements. */
    method EraseNode(elem: Node) returns (status: int)
      requires Valid()
      modifies this`root, this`size, this`shape, Repr(shape), elem`data
      ensures Valid() && Repr(shape) <= old(Repr(shape))
      ensures status == if old(size) != 0 && old(Find(comp, shape, elem.data)) != null then 0 else -1
      ensures status == -1 ==> shape == old(shape) && elem.data == old(elem.data)
      ensures status == 0 ==>
                && shape == Delete(comp, old(shape), old(elem.data), elem in old(Repr(shape)))
                && elem.data == Handed(comp, old(shape), old(elem.data))
    {
      if size == 0 {
        return -1;
      }
      ghost var own, t := elem in Repr(shape), Nil;
      assert Stands(comp, elem, shape, own) by { StandsSomewhere(elem); }
      assert root != null by { NotEmpty(); }
      var newroot;
      status, newroot, t := DeleteFromRoot(comp, root, elem, size, shape, own);
      Install(newroot, if status == 0 then Wrap(size - 1) else size, t);
    }

    // ---------- iteration (containers/AVLTree.c:418-467) ----------

    /** The leftmost node; NULL when the tree is empty. */
    method Begin() returns (node: Node?)
      requires Valid()
      ensures node == At(Nodes(shape), 0)
    {
      node := root;
      ghost var t, rest := shape, [];
      while node != null && node.lchild != null
        invariant node == Root(t) && Linked(t) && Nodes(shape) == Nodes(t) + rest
        invariant rest != [] ==> t.Bin?
        decreases t
      {
        rest := [t.node] + Nodes(t.r) + rest;
        node, t := node.lchild, t.l;
      }
      if t.Bin? { assert t.l.Nil?; }
    }

    /** The rightmost node. */
    method End() returns (node: Node?)
      requires Valid()
      ensures node == At(Nodes(shape), |Nodes(shape)| - 1)
    {
      node := root;
      ghost var t, rest := shape, [];
      while node != null && node.rchild != null
        invariant node == Root(t) && Linked(t) && Nodes(shape) == rest + Nodes(t)
        invariant rest != [] ==> t.Bin?
        decreases t
      {
        rest := rest + Nodes(t.l) + [t.node];
        node, t := node.rchild, t.r;
      }
      if t.Bin? { assert t.r.Nil?; }
    }

    /** An iterator of the tree stands on its element; its neighbours are the neighbours in
        the order, and past either end there is none. */
    method Step(node: Node) returns (data: Blob, prev: Node?, next: Node?)
      requires Valid() && node in Repr(shape)
      ensures var i := IndexOf(Nodes(shape), node);
              && i < |Elements()| && data == Elements()[i]
              && prev == At(Nodes(shape), i - 1) && next == At(Nodes(shape), i + 1)
    {
      SearchFindsNode(node);
      SameCount(shape);
      data, prev, next := node.data, node.prev, node.next;
    }

    /** Walks from the leftmost node along `next`, freeing every node it leaves, and clears the
        whole descriptor, comparator included. */
    method Destructor() returns (freed: seq<Node>)
      requires Valid()
      modifies this
      ensures freed == old(Nodes(shape)) && NoDuplicates(freed)
      ensures root == null && size == 0 && compcleared && shape == Nil
    {
      NodesOfRepr(shape);
      DistinctMeansNoDuplicates(shape);
      ghost var q := Nodes(shape);
      assert allocated(Elems(q)) && Threaded(q);
      var node := Begin();
      assert Threaded(q) == old(Threaded(q));
      freed := [];
      while node != null
        invariant Threaded(q) && |freed| <= |q| && freed == q[..|freed|] && node == At(q, |freed|)
        decreases |q| - |freed|
      {
        assert q[|freed|] == node && node.next == At(q, |freed| + 1);
        var nextnode := node.next;
        freed := freed + [node];
        node := nextnode;
      }
      root, size, compcleared, shape := null, 0, true, Nil;
    }
  }
}
