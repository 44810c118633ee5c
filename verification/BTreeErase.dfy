/** Deletion from linked 2-3 tree nodes (containers/btree.c:272-491). */
module BTreeErase {
  import opened Checks
  import opened Options
  import opened Ordering
  import opened Pairs
  import opened BTreeNode
  import T = TwoThree
  import E = TwoThreeErase
  import W = WaysDown

  // ---------- rotations (containers/btree.c:272-308) ----------

  /** The field updates of a rotation to the left: `child` is slot `which` of `root`, `sib` the
      next one. */
  method PullFromRight(root: Node, which: nat, child: Node, sib: Node)
    requires which < 2 && root != child && root != sib && child != sib
    requires |root.kv| == |child.kv| == |sib.kv| == 2 && |child.childs| == |sib.childs| == 3
    modifies root`kv, child`kv, child`childs, sib`kv, sib`childs
    ensures child.kv == old(child.kv)[0 := old(root.kv)[which]] && root.kv == old(root.kv)[which := old(sib.kv)[0]]
    ensures child.childs == old(child.childs)[1 := old(sib.childs)[0]]
    ensures sib.kv == [old(sib.kv)[1], None] && sib.childs == [old(sib.childs)[1], old(sib.childs)[2], null]
  {
    child.kv := child.kv[0 := root.kv[which]];
    root.kv := root.kv[which := sib.kv[0]];
    child.childs := child.childs[1 := sib.childs[0]];
    sib.kv := [sib.kv[1], None];
    sib.childs := [sib.childs[1], sib.childs[2], null];
  }

  method PullFromLeft(root: Node, which: nat, child: Node, sib: Node)
    requires 0 < which < 3 && root != child && root != sib && child != sib
    requires |root.kv| == |child.kv| == |sib.kv| == 2 && |child.childs| == |sib.childs| == 3
    modifies root`kv, child`kv, child`childs, sib`kv, sib`childs
    ensures child.kv == old(child.kv)[0 := old(root.kv)[which - 1]]
    ensures root.kv == old(root.kv)[which - 1 := old(sib.kv)[1]]
    ensures child.childs == old(child.childs)[1 := old(child.childs)[0]][0 := old(sib.childs)[2]]
    ensures sib.kv == old(sib.kv)[1 := None] && sib.childs == old(sib.childs)[2 := null]
  {
    child.kv := child.kv[0 := root.kv[which - 1]];
    root.kv := root.kv[which - 1 := sib.kv[1]];
    child.childs := child.childs[1 := child.childs[0]];
    child.childs := child.childs[0 := sib.childs[2]];
    sib.childs := sib.childs[2 := null];
    sib.kv := sib.kv[1 := None];
  }

  /** A pair goes from the two-pair node `b` through slot `which` of `root` to the empty node
      `c` on its left. */
  method PullLeft(root: Node, which: nat, ghost p: Pair, ghost c: Shape, ghost b: Shape)
    returns (ghost c': Shape, ghost b': Shape)
    requires c.Under? && b.Two? && Check(c).Sound? && Check(b).Sound? && Repr(c) !! Repr(b)
    requires root !in Repr(c) + Repr(b)
    requires which < 2 && |root.kv| == 2 && root.kv[which] == Some(p) && which + 1 < |root.childs|
    requires root.childs[which] == c.node && root.childs[which + 1] == b.node
    modifies root`kv, c.node`kv, c.node`childs, b.node`kv, b.node`childs
    ensures c' == One(c.node, p, c.c, b.l) && b' == One(b.node, b.q, b.m, b.r)
    ensures root.kv == old(root.kv)[which := Some(b.p)]
    ensures Check(c').Sound? && Check(b').Sound? && Repr(c') !! Repr(b') && Repr(c') + Repr(b') == Repr(c) + Repr(b)
  {
    assert allocated(Repr(c)) && allocated(Repr(b));
    assert Repr(b.l) <= Repr(b) && Repr(b.m) <= Repr(b) && Repr(b.r) <= Repr(b);
    PullFromRight(root, which, root.childs[which], root.childs[which + 1]);
    assert Linked(c.c) == old(Linked(c.c)) && Linked(b.l) == old(Linked(b.l));
    assert Linked(b.m) == old(Linked(b.m)) && Linked(b.r) == old(Linked(b.r));
    c', b' := One(c.node, p, c.c, b.l), One(b.node, b.q, b.m, b.r);
  }

  /** A pair goes from the two-pair node `b` to the empty node `c` on its right. */
  method PullRight(root: Node, which: nat, ghost p: Pair, ghost b: Shape, ghost c: Shape)
    returns (ghost b': Shape, ghost c': Shape)
    requires c.Under? && b.Two? && Check(c).Sound? && Check(b).Sound? && Repr(c) !! Repr(b)
    requires root !in Repr(c) + Repr(b)
    requires 0 < which < 3 && |root.kv| == 2 && root.kv[which - 1] == Some(p) && which < |root.childs|
    requires root.childs[which] == c.node && root.childs[which - 1] == b.node
    modifies root`kv, c.node`kv, c.node`childs, b.node`kv, b.node`childs
    ensures b' == One(b.node, b.p, b.l, b.m) && c' == One(c.node, p, b.r, c.c)
    ensures root.kv == old(root.kv)[which - 1 := Some(b.q)]
    ensures Check(c').Sound? && Check(b').Sound? && Repr(c') !! Repr(b') && Repr(c') + Repr(b') == Repr(c) + Repr(b)
  {
    assert allocated(Repr(c)) && allocated(Repr(b));
    assert Repr(b.l) <= Repr(b) && Repr(b.m) <= Repr(b) && Repr(b.r) <= Repr(b);
    PullFromLeft(root, which, root.childs[which], root.childs[which - 1]);
    assert Linked(c.c) == old(Linked(c.c)) && Linked(b.l) == old(Linked(b.l));
    assert Linked(b.m) == old(Linked(b.m)) && Linked(b.r) == old(Linked(b.r));
    b', c' := One(b.node, b.p, b.l, b.m), One(c.node, p, b.r, c.c);
  }

  /** A node whose child `i` has lost its last pair while its other children are nodes. */
  ghost predicate Hurt(s: Shape, i: int) {
    && HasChild(s, i) && Child(s, i).Under?
    && (i != 0 ==> s.l.One? || s.l.Two?)
    && (s.One? && i != 1 ==> s.r.One? || s.r.Two?)
    && (s.Two? && i != 1 ==> s.m.One? || s.m.Two?)
    && (s.Two? && i != 2 ==> s.r.One? || s.r.Two?)
  }

  /** The shape after a pair has gone to child `i` from the one on its right. */
  ghost function PulledLeft(s: Shape, i: nat): Shape
    requires HasChild(s, i) && HasChild(s, i + 1) && Child(s, i).Under? && Child(s, i + 1).Two?
  {
    var (x, c, b) := (if i == 0 then s.p else s.q, Child(s, i), Child(s, i + 1));
    var (c', b') := (One(c.node, x, c.c, b.l), One(b.node, b.q, b.m, b.r));
    if s.One? then One(s.node, b.p, c', b')
    else if i == 0 then Two(s.node, b.p, s.q, c', b', s.r)
    else Two(s.node, s.p, b.p, s.l, c', b')
  }

  lemma PulledLeftIsRotated(s: Shape, i: nat)
    requires HasChild(s, i) && HasChild(s, i + 1) && Child(s, i).Under? && Child(s, i + 1).Two?
    ensures T.HasChild(Value(s), i) && T.Child(Value(s), i).Under?
    ensures Value(PulledLeft(s, i)) == E.RotateLeft(Value(s), i)
    ensures Repr(PulledLeft(s, i)) == Repr(s)
  {}

  /** The shape after a pair has gone to child `i` from the one on its left. */
  ghost function PulledRight(s: Shape, i: nat): Shape
    requires HasChild(s, i) && HasChild(s, i - 1) && Child(s, i).Under? && Child(s, i - 1).Two?
  {
    var (x, b, c) := (if i == 1 then s.p else s.q, Child(s, i - 1), Child(s, i));
    var (b', c') := (One(b.node, b.p, b.l, b.m), One(c.node, x, b.r, c.c));
    if s.One? then One(s.node, b.q, b', c')
    else if i == 1 then Two(s.node, b.q, s.q, b', c', s.r)
    else Two(s.node, s.p, b.q, s.l, b', c')
  }

  lemma PulledRightIsRotated(s: Shape, i: nat)
    requires HasChild(s, i) && HasChild(s, i - 1) && Child(s, i).Under? && Child(s, i - 1).Two?
    ensures T.HasChild(Value(s), i) && T.Child(Value(s), i).Under?
    ensures Value(PulledRight(s, i)) == E.RotateRight(Value(s), i)
    ensures Repr(PulledRight(s, i)) == Repr(s)
  {}

  /** Without a sibling that can spare a pair the rotations refuse. */
  lemma RefusalIsRight(s: Shape, i: int)
    requires HasChild(s, i) && Child(s, i).Under?
    ensures T.HasChild(Value(s), i) && T.Child(Value(s), i).Under?
    ensures (HasChild(s, i + 1) ==> !Child(s, i + 1).Two?) ==> E.RotateLeft(Value(s), i) == T.Nil
    ensures (HasChild(s, i - 1) ==> !Child(s, i - 1).Two?) ==> E.RotateRight(Value(s), i) == T.Nil
  {}

  method RotateLeftOver(root: Node, which: nat, ghost s: Shape) returns (ghost s': Shape)
    requires Hurt(s, which) && root == s.node && Check(s).Sound?
    requires HasChild(s, which + 1) && Child(s, which + 1).Two?
    modifies Repr(s)
    ensures s' == PulledLeft(s, which) && Check(s').Sound?
  {
    assert allocated(Repr(s));
    ChildFits(s, which);
    ChildFits(s, which + 1);
    ghost var x := if which == 0 then s.p else s.q;
    ghost var c, b := PullLeft(root, which, x, Child(s, which), Child(s, which + 1));
    s' := PulledLeft(s, which);
    if s.One? {
      Assemble(s');
    } else if which == 0 {
      assert Check(s.r) == old(Check(s.r));
      assert Repr(c) + Repr(b) !! Repr(s.r);
      Assemble(s');
    } else {
      assert Check(s.l) == old(Check(s.l));
      assert Repr(c) + Repr(b) !! Repr(s.l);
      Assemble(s');
    }
  }

  method RotateRightOver(root: Node, which: nat, ghost s: Shape) returns (ghost s': Shape)
    requires Hurt(s, which) && root == s.node && Check(s).Sound?
    requires HasChild(s, which - 1) && Child(s, which - 1).Two?
    modifies Repr(s)
    ensures s' == PulledRight(s, which) && Check(s').Sound?
  {
    assert allocated(Repr(s));
    ChildFits(s, which);
    ChildFits(s, which - 1);
    ghost var x := if which == 1 then s.p else s.q;
    ghost var b, c := PullRight(root, which, x, Child(s, which - 1), Child(s, which));
    s' := PulledRight(s, which);
    if s.One? {
      Assemble(s');
    } else if which == 1 {
      assert Check(s.r) == old(Check(s.r));
      assert Repr(b) + Repr(c) !! Repr(s.r);
      Assemble(s');
    } else {
      assert Check(s.l) == old(Check(s.l));
      assert Repr(b) + Repr(c) !! Repr(s.l);
      Assemble(s');
    }
  }

  method RotateLeft(root: Node, which: nat, ghost s: Shape) returns (status: int, ghost s': Shape)
    requires Hurt(s, which) && root == s.node && Check(s).Sound?
    modifies Repr(s)
    ensures T.HasChild(Value(s), which) && T.Child(Value(s), which).Under?
    ensures Check(s').Sound? && Root(s') == root && Repr(s') == Repr(s)
    ensures status == -1 ==> s' == s && E.RotateLeft(Value(s), which) == T.Nil
    ensures status != -1 ==> status == 0 && Value(s') == E.RotateLeft(Value(s), which)
  {
    RefusalIsRight(s, which);
    if which == 2 {
      return -1, s;
    }
    ChildFits(s, which);
    if HasChild(s, which + 1) { ChildFits(s, which + 1); }
    if root.childs[which + 1] == null || root.childs[which + 1].kv[1].None? {
      return -1, s;
    }
    PulledLeftIsRotated(s, which);
    s' := RotateLeftOver(root, which, s);
    status := 0;
  }

  method RotateRight(root: Node, which: nat, ghost s: Shape) returns (status: int, ghost s': Shape)
    requires Hurt(s, which) && root == s.node && Check(s).Sound?
    modifies Repr(s)
    ensures T.HasChild(Value(s), which) && T.Child(Value(s), which).Under?
    ensures Check(s').Sound? && Root(s') == root && Repr(s') == Repr(s)
    ensures status == -1 ==> s' == s && E.RotateRight(Value(s), which) == T.Nil
    ensures status != -1 ==> status == 0 && Value(s') == E.RotateRight(Value(s), which)
  {
    RefusalIsRight(s, which);
    if which == 0 {
      return -1, s;
    }
    ChildFits(s, which);
    ChildFits(s, which - 1);
    if root.childs[which - 1] == null || root.childs[which - 1].kv[1].None? {
      return -1, s;
    }
    PulledRightIsRotated(s, which);
    s' := RotateRightOver(root, which, s);
    status := 0;
  }

  // ---------- merging (containers/btree.c:310-356) ----------

  /** The empty node `c` takes the pair `p` and everything of its right sibling `b`. */
  method JoinFromRight(left: Node, right: Node, p: Pair, ghost c: Shape, ghost b: Shape) returns (ghost u: Shape)
    requires c.Under? && b.One? && Check(c).Sound? && Check(b).Sound? && Repr(c) !! Repr(b)
    requires left == c.node && right == b.node
    modifies left
    ensures u == Two(left, p, b.p, c.c, b.l, b.r) && Check(u).Sound? && Repr(u) <= Repr(c) + Repr(b)
  {
    assert allocated(Repr(c)) && allocated(Repr(b));
    left.kv := [Some(p), right.kv[0]];
    left.childs := [left.childs[0], right.childs[0], right.childs[1]];
    u := Two(left, p, b.p, c.c, b.l, b.r);
    assert Check(c.c) == old(Check(c.c)) && Check(b.l) == old(Check(b.l)) && Check(b.r) == old(Check(b.r));
    Assemble(u);
  }

  /** The one-pair node `b` takes the pair `p` and the subtree of its empty right sibling `c`. */
  method JoinFromLeft(left: Node, right: Node, p: Pair, ghost b: Shape, ghost c: Shape) returns (ghost u: Shape)
    requires c.Under? && b.One? && Check(c).Sound? && Check(b).Sound? && Repr(c) !! Repr(b)
    requires left == b.node && right == c.node && (b.r.Nil? ==> c.c.Nil?)
    modifies left
    ensures u == Two(left, b.p, p, b.l, b.r, c.c) && Check(u).Sound? && Repr(u) <= Repr(c) + Repr(b)
  {
    assert allocated(Repr(c)) && allocated(Repr(b));
    left.kv := left.kv[1 := Some(p)];
    if left.childs[1] == null {
      left.childs := left.childs[1 := right.childs[0]];
    } else {
      left.childs := left.childs[2 := right.childs[0]];
    }
    u := Two(left, b.p, p, b.l, b.r, c.c);
    assert Check(c.c) == old(Check(c.c)) && Check(b.l) == old(Check(b.l)) && Check(b.r) == old(Check(b.r));
    Assemble(u);
  }

  /** What is left of the parent of two joined children. */
  method CloseGap(root: Node, which: nat, ghost s: Shape, ghost u: Shape) returns (status: int, ghost s': Shape)
    requires HasChild(s, which) && root == s.node && Fits(s) && Check(u).Sound?
    requires Root(u) == Root(Child(s, if which == 2 then 1 else 0)) && root !in Repr(u)
    requires s.Two? ==>
               var k := if which == 2 then s.l else s.r;
               Check(k).Sound? && Repr(k) !! Repr(u) && root !in Repr(k)
    modifies root
    ensures Check(s').Sound? && Root(s') == root && status == if s.One? then 1 else 0
    ensures s' == if s.One? then Under(root, u)
                  else if which == 2 then One(root, s.p, s.l, u) else One(root, s.q, u, s.r)
  {
    assert allocated(Repr(u)) && (s.Two? ==> allocated(Repr(s.l)) && allocated(Repr(s.r)));
    status := 0;
    if which == 2 {
      root.kv := root.kv[1 := None];
      root.childs := root.childs[2 := null];
      s' := One(root, s.p, s.l, u);
      assert Check(s.l) == old(Check(s.l));
    } else {
      root.kv := [root.kv[1], None];
      root.childs := [root.childs[0], root.childs[2], null];
      if root.kv[0] == None {
        status := 1;
      }
      s' := if s.One? then Under(root, u) else One(root, s.q, u, s.r);
      assert s.Two? ==> Check(s.r) == old(Check(s.r));
    }
    assert Check(u) == old(Check(u));
    Assemble(s');
  }

  method Merge(root: Node, which: nat, ghost s: Shape) returns (status: int, ghost s': Shape)
    requires Hurt(s, which) && root == s.node && Check(s).Sound?
    requires var b := Child(s, E.Sibling(which)); b.One? && (b.r.Nil? ==> Child(s, which).c.Nil?)
    modifies Repr(s)
    ensures T.HasChild(Value(s), which) && T.Child(Value(s), which).Under? && T.Child(Value(s), E.Sibling(which)).One?
    ensures Check(s').Sound? && Root(s') == root && Repr(s') <= Repr(s)
    ensures T.Outcome(status, Value(s')) == E.Merge(Value(s), which)
  {
    assert allocated(Repr(s));
    ChildFits(s, which);
    ChildFits(s, E.Sibling(which));
    ghost var u;
    if which == 0 {
      u := JoinFromRight(root.childs[0], root.childs[1], root.kv[0].value, s.l, Child(s, 1));
    } else {
      u := JoinFromLeft(root.childs[which - 1], root.childs[which], root.kv[which - 1].value,
                        Child(s, which - 1), Child(s, which));
    }
    if s.Two? {
      ghost var k := if which == 2 then s.l else s.r;
      assert Check(k) == old(Check(k));
    }
    status, s' := CloseGap(root, which, s, u);
  }

  // ---------- the caller's repair ----------

  lemma FullTop(s: Shape, h: nat)
    requires T.Full(Value(s), h)
    ensures h == 0 <==> s.Nil?
    ensures h > 0 ==> (s.One? || s.Two?) && s.l.Nil? == (h == 1) && s.r.Nil? == (h == 1)
    ensures s.Two? ==> s.m.Nil? == (h == 1)
  {
    if h > 0 {
      assert T.Full(Value(s.l), h - 1) && T.Full(Value(s.r), h - 1);
      assert s.Two? ==> T.Full(Value(s.m), h - 1);
    }
  }

  lemma UnderfullTop(s: Shape, h: nat)
    requires T.Underfull(Value(s), h)
    ensures s.Under? && h > 0 && (s.c.Nil? <==> h == 1)
  {
    FullTop(s.c, h - 1);
  }

  lemma BrokenIsHurt(s: Shape, i: int, h: nat)
    requires HasChild(s, i) && T.HasChild(Value(s), i) && E.Broken(Value(s), i, h)
    ensures Hurt(s, i) && T.IsNode(T.Child(Value(s), E.Sibling(i)))
    ensures Child(s, E.Sibling(i)).One? && Child(s, E.Sibling(i)).r.Nil? ==> Child(s, i).c.Nil?
  {
    if i != 0 { FullTop(s.l, h - 1); }
    if s.Two? && i != 1 { FullTop(s.m, h - 1); }
    if (s.One? && i != 1) || (s.Two? && i != 2) { FullTop(s.r, h - 1); }
    TakeChildOut(s, i);
    TakeChildOut(s, E.Sibling(i));
    UnderfullTop(Child(s, i), h - 1);
  }

  /** The attempts of a caller whose child `which` came back empty.  The callers leave out the
      rotation on a side without sibling; asked for, it does nothing. */
  method Repair(root: Node, which: nat, ghost s: Shape, ghost h: nat) returns (status: int, ghost s': Shape)
    requires HasChild(s, which) && root == s.node && Check(s).Sound?
    requires T.HasChild(Value(s), which) && E.Broken(Value(s), which, h)
    modifies Repr(s)
    ensures T.IsNode(T.Child(Value(s), E.Sibling(which)))
    ensures Check(s').Sound? && Root(s') == root && Repr(s') <= Repr(s)
    ensures T.Outcome(status, Value(s')) == E.Repair(Value(s), which)
    // the right sibling gives if it can, only otherwise the left one
    ensures E.Mended(Value(s), which, T.Outcome(status, Value(s')))
  {
    E.RepairAsksRightFirst(Value(s), which, h);
    BrokenIsHurt(s, which, h);
    status, s' := RotateLeft(root, which, s);
    if status == 0 {
      return;
    }
    status, s' := RotateRight(root, which, s);
    if status == 0 {
      return;
    }
    status, s' := Merge(root, which, s);
  }

  /** Repairs `root` after deletion below its child `which`, if that is needed. */
  method Settle(root: Node, which: nat, outcome: int, ghost s: Shape, ghost c: Shape, ghost h: nat)
    returns (status: int, ghost s': Shape)
    requires HasChild(s, which) && root == s.node && T.Full(Value(s), h)
    requires CheckRest(s, which).Sound? && Check(c).Sound? && Rest(s, which) !! Repr(c)
    requires Root(c) == Root(Child(s, which))
    requires T.HasChild(Value(s), which)
    requires E.EraseResult(T.Child(Value(s), which), T.Outcome(outcome, Value(c)), h - 1) && (outcome == 1 ==> h > 1)
    modifies Rest(s, which) + Repr(c)
    ensures Check(s').Sound? && Root(s') == root && Repr(s') <= Rest(s, which) + Repr(c)
    ensures T.Outcome(status, Value(s')) == E.Settle(Value(s), which, T.Outcome(outcome, Value(c)))
  {
    PutChildIn(s, which, c);
    if outcome != 1 {
      return outcome, WithChild(s, which, c);
    }
    E.SettleIsRepair(Value(s), which, T.Outcome(outcome, Value(c)), h);
    status, s' := Repair(root, which, WithChild(s, which, c), h);
  }

  // ---------- the minimum (containers/btree.c:359-401) ----------

  method RecursiveEraseMin(root: Node, ghost s: Shape, ghost h: nat) returns (status: int, ghost s': Shape)
    requires root == Root(s) && Check(s).Sound? && T.Full(Value(s), h)
    modifies Repr(s)
    ensures Check(s').Sound? && Root(s') == root && Repr(s') <= Repr(s)
    ensures T.Outcome(status, Value(s')) == E.EraseMin(Value(s))
    decreases s, 1
  {
    assert allocated(Repr(s));
    FullTop(s, h);
    if root.childs[0] != null {
      status, s' := EraseMinBelow(root, 0, s, h);
      return;
    }
    if root.kv[1].Some? {
      root.kv := [root.kv[1], None];
      s' := One(root, s.q, Nil, Nil);
      return 0, s';
    }
    root.kv := root.kv[0 := None];
    return 1, Under(root, Nil);
  }

  /** Removes the smallest pair below child `i`. */
  method EraseMinBelow(root: Node, i: nat, ghost s: Shape, ghost h: nat) returns (status: int, ghost s': Shape)
    requires root == Root(s) && Check(s).Sound? && T.Full(Value(s), h)
    requires HasChild(s, i) && T.HasChild(Value(s), i) && T.IsNode(T.Child(Value(s), i))
    modifies Repr(s)
    ensures Check(s').Sound? && Root(s') == root && Repr(s') <= Repr(s)
    ensures T.Outcome(status, Value(s')) == E.Settle(Value(s), i, E.EraseMin(T.Child(Value(s), i)))
    decreases s, 0
  {
    assert allocated(Repr(s)) && allocated(Rest(s, i));
    TakeChildOut(s, i);
    E.EraseMinStep(Value(s), i, h);
    ghost var c;
    status, c := RecursiveEraseMin(root.childs[i], Child(s, i), h - 1);
    assert CheckRest(s, i) == old(CheckRest(s, i));
    status, s' := Settle(root, i, status, s, c, h);
  }

  method GetMin(root: Node?, ghost s: Shape, ghost h: nat) returns (status: int, pair: Option<Pair>)
    requires root == Root(s) && Check(s).Sound? && T.Full(Value(s), h)
    ensures
      || (status == -1 && root == null)
      || (status == 0 && root != null && T.IsNode(Value(s)) && pair == Some(E.MinPair(Value(s))))
    decreases s
  {
    if root == null {
      return -1, None;
    }
    FullTop(s, h);
    TakeChildOut(s, 0);
    if root.childs[0] != null {
      FullTop(s.l, h - 1);
      status, pair := GetMin(root.childs[0], s.l, h - 1);
      return;
    }
    return 0, root.kv[0];
  }

  // ---------- deletion (containers/btree.c:403-473) ----------

  function WithPair(s: Shape, i: int, x: Pair): Shape
    requires s.One? || s.Two?
  {
    match s
    case One(n, p, l, r) => One(n, x, l, r)
    case Two(n, p, q, l, m, r) => if i == 0 then Two(n, x, q, l, m, r) else Two(n, p, x, l, m, r)
  }

  lemma WithPairKeeps(s: Shape, i: int, x: Pair, j: int)
    requires HasChild(s, j) && 0 <= i && HasChild(s, i + 1)
    ensures Value(WithPair(s, i, x)) == E.WithPair(Value(s), i, x)
    ensures HasChild(WithPair(s, i, x), j) && Child(WithPair(s, i, x), j) == Child(s, j)
    ensures Rest(WithPair(s, i, x), j) == Rest(s, j)
    ensures Repr(WithPair(s, i, x)) == Repr(s)
  {}

  /** Overwrites pair `i` of a node. */
  method StorePair(root: Node, i: nat, x: Pair, ghost s: Shape)
    requires HasChild(s, i + 1) && root == s.node && Check(s).Sound?
    modifies root`kv
    ensures Check(WithPair(s, i, x)).Sound?
  {
    assert allocated(Repr(s));
    root.kv := root.kv[i := Some(x)];
    assert Check(s.l) == old(Check(s.l)) && Check(s.r) == old(Check(s.r)) && (s.Two? ==> Check(s.m) == old(Check(s.m)));
    Assemble(WithPair(s, i, x));
  }

  /** A pair of a leaf has no successor. */
  method EraseOfLeaf(root: Node, i: nat, ghost s: Shape, ghost h: nat) returns (status: int, ghost s': Shape)
    requires root == Root(s) && Check(s).Sound? && T.Full(Value(s), h) && HasChild(s, i + 1)
    requires T.HasChild(Value(s), i + 1) && !T.IsNode(T.Child(Value(s), i + 1))
    modifies Repr(s)
    ensures Check(s').Sound? && Root(s') == root && Repr(s') <= Repr(s)
    ensures T.Outcome(status, Value(s')) == E.EraseHere(Value(s), i)
  {
    if i == 0 {
      status, s' := RecursiveEraseMin(root, s, h);
    } else {
      FullTop(s, h);
      assert s.l.Nil? && s.m.Nil?;
      root.kv := root.kv[1 := None];
      status, s' := 0, One(root, s.p, s.l, s.m);
    }
  }

  /** Removes pair `i` of `root` itself. */
  method EraseHere(root: Node, i: nat, ghost s: Shape, ghost h: nat) returns (status: int, ghost s': Shape)
    requires root == Root(s) && Check(s).Sound? && T.Full(Value(s), h) && HasChild(s, i + 1)
    requires T.HasChild(Value(s), i + 1)
    modifies Repr(s)
    ensures Check(s').Sound? && Root(s') == root && Repr(s') <= Repr(s)
    ensures T.Outcome(status, Value(s')) == E.EraseHere(Value(s), i)
  {
    assert allocated(Repr(s));
    TakeChildOut(s, i + 1);
    FullTop(s, h);
    assert T.Full(Value(Child(s, i + 1)), h - 1);
    var gmstat, min := GetMin(root.childs[i + 1], Child(s, i + 1), h - 1);
    if gmstat == -1 {
      status, s' := EraseOfLeaf(root, i, s, h);
      return;
    }
    assert Check(s) == old(Check(s));
    status, s' := EraseInner(root, i, min.value, s, h);
  }

  /** Pair `i` of an inner node gives way to the smallest pair to its right. */
  method EraseInner(root: Node, i: nat, min: Pair, ghost s: Shape, ghost h: nat) returns (status: int, ghost s': Shape)
    requires root == Root(s) && Check(s).Sound? && T.Full(Value(s), h) && HasChild(s, i + 1)
    requires T.HasChild(Value(s), i + 1)
    requires T.IsNode(T.Child(Value(s), i + 1)) && min == E.MinPair(T.Child(Value(s), i + 1))
    modifies Repr(s)
    ensures Check(s').Sound? && Root(s') == root && Repr(s') <= Repr(s)
    ensures T.Outcome(status, Value(s')) == E.EraseHere(Value(s), i)
  {
    assert allocated(Repr(s));
    WithPairKeeps(s, i, min, i + 1);
    E.EraseHereStep(Value(s), i, h);
    StorePair(root, i, min, s);
    status, s' := EraseMinBelow(root, i + 1, WithPair(s, i, min), h);
  }

  method RecursiveErase(cmp: Comparator, root: Node?, k: Blob, ghost s: Shape, ghost h: nat)
    returns (status: int, ghost s': Shape)
    requires root == Root(s) && Check(s).Sound? && T.Full(Value(s), h)
    modifies Repr(s)
    ensures Check(s').Sound? && Root(s') == root && Repr(s') <= Repr(s)
    ensures T.Outcome(status, Value(s')) == E.Erase(cmp, Value(s), k)
    // exactly the pair that the comparisons lead to goes
    ensures W.TakesLed(cmp, Value(s), k, T.Outcome(status, Value(s')))
    decreases s, 1
  {
    W.DeletionTakesLed(cmp, Value(s), k, h);
    if root == null {
      return -1, s;
    }
    FullTop(s, h);
    var firstcmp := cmp(k, root.kv[0].value.key);
    if firstcmp == 0 {
      status, s' := EraseHere(root, 0, s, h);
      return;
    }
    if firstcmp < 0 {
      status, s' := EraseBelow(cmp, root, 0, k, s, h);
      return;
    }
    if root.kv[1].None? {
      status, s' := EraseBelow(cmp, root, 1, k, s, h);
      return;
    }
    var secondcmp := cmp(k, root.kv[1].value.key);
    if secondcmp == 0 {
      status, s' := EraseHere(root, 1, s, h);
      return;
    }
    if secondcmp < 0 {
      status, s' := EraseBelow(cmp, root, 1, k, s, h);
      return;
    }
    status, s' := EraseBelow(cmp, root, 2, k, s, h);
  }

  /** Deletion below child `i`. */
  method EraseBelow(cmp: Comparator, root: Node, i: nat, k: Blob, ghost s: Shape, ghost h: nat)
    returns (status: int, ghost s': Shape)
    requires root == Root(s) && Check(s).Sound? && T.Full(Value(s), h) && HasChild(s, i)
    requires T.IsNode(Value(s)) && T.Route(cmp, Value(s), k) == i
    modifies Repr(s)
    ensures Check(s').Sound? && Root(s') == root && Repr(s') <= Repr(s)
    ensures T.Outcome(status, Value(s')) == E.Erase(cmp, Value(s), k)
    decreases s, 0
  {
    assert allocated(Repr(s)) && allocated(Rest(s, i));
    TakeChildOut(s, i);
    E.EraseStep(cmp, Value(s), k, h);
    ghost var c;
    status, c := RecursiveErase(cmp, root.childs[i], k, Child(s, i), h - 1);
    assert CheckRest(s, i) == old(CheckRest(s, i));
    status, s' := Settle(root, i, status, s, c, h);
  }
}
