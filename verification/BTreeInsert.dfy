/** Insertion into linked 2-3 tree nodes (containers/btree.c:140-230), as written. */
module BTreeInsert {
  import opened Checks
  import opened Options
  import opened Ordering
  import opened Pairs
  import opened BTreeNode
  import T = TwoThree
  import W = WaysDown

  /** A leaf takes the pair: into a free slot by comparison, into the parking slot of a full
      leaf without one. */
  method InsertIntoLeaf(cmp: Comparator, n: Node, x: Pair, ghost s: Shape) returns (status: int, ghost s': Shape)
    requires T.IsLeaf(Value(s)) && n == s.node && Check(s).Sound?
    modifies n
    ensures Check(s').Sound? && Root(s') == n && Repr(s') == Repr(s)
    ensures status == -1 ==> s' == s
    ensures T.Outcome(status, Value(s')) == T.InsertLeaf(cmp, Value(s), x, false)
  {
    if n.kv[1].Some? {
      LeafTwo(s);
      n.extrakv := Some(x);
      return 1, Over(n, s.p, s.q, Nil, Nil, Nil, x, Nil);
    }
    LeafOne(s, x);
    var firstcmp := cmp(x.key, n.kv[0].value.key);
    if firstcmp == 0 {
      return -1, s;
    }
    if firstcmp > 0 {
      n.kv := n.kv[1 := Some(x)];
      return 0, Two(n, s.p, x, Nil, Nil, Nil);
    }
    n.kv := [Some(x), n.kv[0]];
    return 0, Two(n, x, s.p, Nil, Nil, Nil);
  }

  /** The fields of a full leaf. */
  lemma LeafTwo(s: Shape)
    requires T.IsLeaf(Value(s)) && Check(s).Sound? && s.node.kv[1].Some?
    ensures s.Two? && s.l.Nil? && s.m.Nil? && s.r.Nil?
    ensures s.node.kv == [Some(s.p), Some(s.q)] && s.node.childs == [null, null, null] && s.node.extrachild == null
  {
    assert Fits(s);
  }

  /** The fields of a leaf with a free slot. */
  lemma LeafOne(s: Shape, x: Pair)
    requires T.IsLeaf(Value(s)) && Check(s).Sound? && s.node.kv[1].None?
    ensures s.One? && s.l.Nil? && s.r.Nil?
    ensures s.node.kv == [Some(s.p), None] && s.node.childs == [null, null, null]
    ensures s.node.extrakv == None && s.node.extrachild == null
    ensures s.node.kv[1 := Some(x)] == [Some(s.p), Some(x)]
  {
    assert Fits(s);
  }

  /** The halves of child `i` go into a free slot, or the promoted pair and the left half are
      parked. */
  method PlaceHalves(n: Node, i: nat, mid: Pair, top: Node, ghost s: Shape, ghost left: Shape, ghost right: Shape)
    returns (status: int, ghost s': Shape)
    requires HasChild(s, i) && n == s.node && Check(s).Sound? && Child(s, i) == right
    requires Check(left).Sound? && Repr(left) !! Repr(s) && top == Root(left)
    modifies n
    ensures Check(s').Sound? && Root(s') == n && Repr(s') == Repr(s) + Repr(left)
    ensures T.HasChild(Value(s), i)
    ensures T.Outcome(status, Value(s')) == T.TakeHalves(Value(s), i, T.Halves(Value(left), mid, Value(right)), false)
  {
    assert allocated(Repr(s)) && allocated(Repr(left));
    if n.kv[1].Some? {
      n.extrakv := Some(mid);
      n.extrachild := top;
      assert Linked(s.l) == old(Linked(s.l)) && Linked(s.m) == old(Linked(s.m)) && Linked(s.r) == old(Linked(s.r));
      assert Linked(left) == old(Linked(left));
      return 1, Over(n, s.p, s.q, s.l, s.m, s.r, mid, left);
    }
    n.kv := n.kv[1 := Some(mid)];
    n.childs := [n.childs[0], top, n.childs[1]];
    assert Linked(s.l) == old(Linked(s.l)) && Linked(s.r) == old(Linked(s.r));
    assert Linked(left) == old(Linked(left));
    status, s' := 0, Two(n, s.p, mid, s.l, left, s.r);
  }

  /** Insertion below `root`; the caller stores `newroot` back where it found `root`. */
  method RecursiveInsert(cmp: Comparator, root: Node?, x: Pair, ghost s: Shape, ghost h: nat)
    returns (status: int, newroot: Node, ghost s': Shape)
    requires root == Root(s) && Check(s).Sound? && T.Full(Value(s), h)
    modifies Repr(s)
    ensures Check(s').Sound? && newroot == Root(s') && (root != null ==> newroot == root)
    ensures forall m :: m in Repr(s') ==> m in Repr(s) || fresh(m)
    ensures T.Outcome(status, Value(s')) == T.Insert(cmp, Value(s), x, false)
    ensures status == -1 ==> s' == s
    // refused exactly if the comparisons lead to a pair that is not in a full leaf
    ensures status == -1 <==> W.Refuses(cmp, Value(s), x.key)
    decreases s, 1
  {
    W.InsertionRefusesExactly(cmp, Value(s), x, h);
    if root == null {
      newroot := new Node();
      newroot.kv := [Some(x), None];
      return 0, newroot, One(newroot, x, Nil, Nil);
    }
    newroot := root;
    assert T.IsNode(Value(s));
    if root.childs == [null, null, null] {
      status, s' := InsertIntoLeaf(cmp, root, x, s);
      return;
    }
    if T.Route(cmp, Value(s), x.key) >= 0 { T.InsertStep(cmp, Value(s), x, false, h); }
    var firstcmp := cmp(x.key, root.kv[0].value.key);
    if firstcmp == 0 {
      return -1, root, s;
    }
    if firstcmp < 0 {
      status, s' := InsertBelow(cmp, root, 0, x, s, h);
      return;
    }
    if root.kv[1].None? {
      status, s' := InsertBelow(cmp, root, 1, x, s, h);
      return;
    }
    var secondcmp := cmp(x.key, root.kv[1].value.key);
    if secondcmp < 0 {
      status, s' := InsertBelow(cmp, root, 1, x, s, h);
      return;
    }
    if secondcmp == 0 {
      return -1, root, s;
    }
    status, s' := InsertBelow(cmp, root, 2, x, s, h);
  }

  /** Insertion into child `i`, and what becomes of the halves when it splits. */
  method InsertBelow(cmp: Comparator, root: Node, i: nat, x: Pair, ghost s: Shape, ghost h: nat)
    returns (status: int, ghost s': Shape)
    requires root == Root(s) && Check(s).Sound? && HasChild(s, i) && T.HasChild(Value(s), i)
    requires h > 0 && T.Full(T.Child(Value(s), i), h - 1) && !T.Child(Value(s), i).Nil?
    modifies Repr(s)
    ensures Check(s').Sound? && root == Root(s')
    ensures forall m :: m in Repr(s') ==> m in Repr(s) || fresh(m)
    ensures T.Outcome(status, Value(s')) ==
            T.Absorb(cmp, Value(s), i, T.Insert(cmp, T.Child(Value(s), i), x, false), false)
    ensures status == -1 ==> s' == s
    decreases s, 0
  {
    assert allocated(Repr(s)) && allocated(Rest(s, i));
    TakeChildOut(s, i);
    T.InsertKeepsShape(cmp, T.Child(Value(s), i), x, false, h - 1);
    var child;
    ghost var c;
    status, child, c := RecursiveInsert(cmp, root.childs[i], x, Child(s, i), h - 1);
    assert CheckRest(s, i) == old(CheckRest(s, i));
    assert Rest(s, i) !! Repr(c);
    if status == -1 {
      WithOwnChild(s, i);
    }
    status, s' := Absorb(cmp, root, i, status, s, c);
  }

  lemma WithOwnChild(s: Shape, i: int)
    requires HasChild(s, i)
    ensures WithChild(s, i, Child(s, i)) == s
  {}

  /** Nothing to do unless child `i`, which has become `c`, is overfull. */
  method Absorb(cmp: Comparator, root: Node, i: nat, outcome: int, ghost s: Shape, ghost c: Shape)
    returns (status: int, ghost s': Shape)
    requires root == Root(s) && HasChild(s, i) && Root(Child(s, i)) == Root(c) && (outcome == 1 ==> c.Over?)
    requires CheckRest(s, i).Sound? && Check(c).Sound? && Rest(s, i) !! Repr(c)
    modifies root, if c.Nil? then {} else {c.node}
    ensures Check(s').Sound? && root == Root(s')
    ensures forall m :: m in Repr(s') ==> m in Rest(s, i) + Repr(c) || fresh(m)
    ensures T.HasChild(Value(s), i)
    ensures T.Outcome(status, Value(s')) == T.Absorb(cmp, Value(s), i, T.Outcome(outcome, Value(c)), false)
    ensures outcome == -1 ==> status == -1 && s' == WithChild(s, i, c)
    ensures status == -1 ==> outcome == -1
  {
    PutChildIn(s, i, c);
    if outcome != 1 {
      return outcome, WithChild(s, i, c);
    }
    status, s' := SplitChild(cmp, root, i, s, c);
  }

  method SplitChild(cmp: Comparator, root: Node, i: nat, ghost s: Shape, ghost c: Shape)
    returns (status: int, ghost s': Shape)
    requires root == Root(s) && HasChild(s, i) && Root(Child(s, i)) == Root(c) && c.Over?
    requires CheckRest(s, i).Sound? && Check(c).Sound? && Rest(s, i) !! Repr(c)
    modifies root, c.node
    ensures Check(s').Sound? && root == Root(s')
    ensures forall m :: m in Repr(s') ==> m in Rest(s, i) + Repr(c) || fresh(m)
    ensures T.HasChild(Value(s), i)
    ensures T.Outcome(status, Value(s')) == T.TakeHalves(Value(s), i, T.SplitUp(cmp, Value(c)), false)
  {
    assert allocated(Rest(s, i)) && allocated(Repr(c));
    PutChildIn(s, i, c);
    var top := new Node();
    var mid;
    ghost var left, right;
    mid, left, right := SplitUp(cmp, root.childs[i], top, c);
    assert CheckRest(s, i) == old(CheckRest(s, i));
    PutChildIn(s, i, right);
    T.TakeHalvesIgnoresChild(Value(s), i, Value(right), T.Halves(Value(left), mid, Value(right)), false);
    status, s' := PlaceHalves(root, i, mid, top, WithChild(s, i, right), left, right);
  }
}
