/** Deletion from the 2-3 tree of containers/btree.c, as a value. */
module TwoThreeErase {
  import opened Sequences
  import opened Ordering
  import opened Pairs
  import opened TwoThree

  // ---------- repairing a child that has lost its last pair (containers/btree.c:272-356) ----------

  /** Child `i` takes a pair from its right sibling; NULL result (Nil) when there is none to
      spare. */
  function RotateLeft(t: Tree, i: int): Tree
    requires HasChild(t, i) && Child(t, i).Under?
  {
    match t
    case One(p, l, r) =>
      if i == 0 && r.Two? then One(r.p, One(p, l.c, r.l), One(r.q, r.m, r.r)) else Nil
    case Two(p, q, l, m, r) =>
      if i == 0 && m.Two? then Two(m.p, q, One(p, l.c, m.l), One(m.q, m.m, m.r), r)
      else if i == 1 && r.Two? then Two(p, r.p, l, One(q, m.c, r.l), One(r.q, r.m, r.r))
      else Nil
  }

  /** Child `i` takes a pair from its left sibling. */
  function RotateRight(t: Tree, i: int): Tree
    requires HasChild(t, i) && Child(t, i).Under?
  {
    match t
    case One(p, l, r) =>
      if i == 1 && l.Two? then One(l.q, One(l.p, l.l, l.m), One(p, l.r, r.c)) else Nil
    case Two(p, q, l, m, r) =>
      if i == 1 && l.Two? then Two(l.q, q, One(l.p, l.l, l.m), One(p, l.r, m.c), r)
      else if i == 2 && m.Two? then Two(p, m.q, l, One(m.p, m.l, m.m), One(q, m.r, r.c))
      else Nil
  }

  /** Child `i`, the pair next to it and its one-pair sibling become one node; a one-pair node
      loses its only pair to it. */
  function Merge(t: Tree, i: int): Outcome
    requires HasChild(t, i) && Child(t, i).Under? && Child(t, Sibling(i)).One?
  {
    match t
    case One(p, l, r) =>
      if i == 0 then Outcome(1, Under(Two(p, r.p, l.c, r.l, r.r)))
      else Outcome(1, Under(Two(l.p, p, l.l, l.r, r.c)))
    case Two(p, q, l, m, r) =>
      if i == 0 then Outcome(0, One(q, Two(p, m.p, l.c, m.l, m.r), r))
      else if i == 1 then Outcome(0, One(q, Two(l.p, p, l.l, l.r, m.c), r))
      else Outcome(0, One(p, l, Two(m.p, q, m.l, m.r, r.c)))
  }

  /** The sibling that `Merge` joins child `i` with. */
  function Sibling(i: int): int {
    if i == 0 then 1 else i - 1
  }

  /** The attempts in the order the callers make them.  A child at either end has one sibling
      and asks only that one; the other rotation gives nothing there. */
  function Repair(t: Tree, i: int): Outcome
    requires HasChild(t, i) && Child(t, i).Under? && IsNode(Child(t, Sibling(i)))
  {
    if IsNode(RotateLeft(t, i)) then Outcome(0, RotateLeft(t, i))
    else if IsNode(RotateRight(t, i)) then Outcome(0, RotateRight(t, i))
    else Merge(t, i)
  }

  /** What deletion below a tree of height `h` may give back. */
  predicate EraseResult(t: Tree, o: Outcome, h: nat) {
    || (o.status == -1 && o.tree == t)
    || (o.status == 0 && Full(o.tree, h))
    || (o.status == 1 && Underfull(o.tree, h))
  }

  /** A node of height `h` whose child `i` has lost its last pair. */
  predicate Broken(t: Tree, i: int, h: nat) {
    && HasChild(t, i) && h > 1 && Underfull(Child(t, i), h - 1)
    && (i != 0 ==> Full(Child(t, 0), h - 1)) && (i != 1 ==> Full(Child(t, 1), h - 1))
    && (t.Two? && i != 2 ==> Full(Child(t, 2), h - 1))
  }

  lemma BrokenSiblings(t: Tree, i: int, h: nat)
    requires Broken(t, i, h)
    ensures IsNode(Child(t, Sibling(i)))
    ensures t.Two? && i == 1 ==> IsNode(t.r)
  {}

  /** The repair restores the shape: it gives a proper node of the same height, or a node
      that has itself lost its last pair. */
  lemma RepairShape(t: Tree, i: int, h: nat)
    requires Broken(t, i, h) && IsNode(Child(t, Sibling(i)))
    ensures EraseResult(t, Repair(t, i), h) && Repair(t, i).status >= 0
  {}

  lemma RotateLeftFlat(cmp: Comparator, t: Tree, i: int)
    requires HasChild(t, i) && Child(t, i).Under? && RotateLeft(t, i) != Nil
    ensures Flat(cmp, RotateLeft(t, i)) == Flat(cmp, t)
  {}

  lemma RotateRightFlat(cmp: Comparator, t: Tree, i: int)
    requires HasChild(t, i) && Child(t, i).Under? && RotateRight(t, i) != Nil
    ensures Flat(cmp, RotateRight(t, i)) == Flat(cmp, t)
  {}

  lemma MergeFlat(cmp: Comparator, t: Tree, i: int)
    requires HasChild(t, i) && Child(t, i).Under? && Child(t, Sibling(i)).One?
    ensures Flat(cmp, Merge(t, i).tree) == Flat(cmp, t)
  {}

  lemma RepairFlat(cmp: Comparator, t: Tree, i: int)
    requires HasChild(t, i) && Child(t, i).Under? && IsNode(Child(t, Sibling(i)))
    ensures Flat(cmp, Repair(t, i).tree) == Flat(cmp, t)
  {
    if IsNode(RotateLeft(t, i)) {
      RotateLeftFlat(cmp, t, i);
    } else if IsNode(RotateRight(t, i)) {
      RotateRightFlat(cmp, t, i);
    } else {
      MergeFlat(cmp, t, i);
    }
  }

  // ---------- which sibling gives (containers/btree.c:420-471) ----------

  function PairAt(t: Tree, i: int): Pair
    requires IsNode(t) && 0 <= i && HasChild(t, i + 1)
  {
    if i == 0 then t.p else t.q
  }

  /** The pairs to the left of pair `i`. */
  /** `u` has the children and pairs of `t` but for children `i` and `i + 1` and the pair between
      them, which the pair `x` replaces. */
  ghost predicate SameElsewhere(t: Tree, i: int, x: Pair, u: Tree) {
    && HasChild(t, i + 1) && HasChild(t, i) && u.One? == t.One? && u.Two? == t.Two?
    && (forall j :: HasChild(t, j) && j != i && j != i + 1 ==> Child(u, j) == Child(t, j))
    && (forall w :: 0 <= w && HasChild(t, w + 1) ==> PairAt(u, w) == if w == i then x else PairAt(t, w))
  }

  /** The right sibling has two pairs: its first one goes up, the pair between comes down, and no
      other child is touched. */
  ghost predicate RightGives(t: Tree, i: int, u: Outcome) {
    && HasChild(t, i) && HasChild(t, i + 1) && Child(t, i).Under? && Child(t, i + 1).Two?
    && var b := Child(t, i + 1);
       && u.status == 0 && SameElsewhere(t, i, b.p, u.tree)
       && Child(u.tree, i) == One(PairAt(t, i), Child(t, i).c, b.l) && Child(u.tree, i + 1) == One(b.q, b.m, b.r)
  }

  /** The left sibling has two pairs: its second one goes up. */
  ghost predicate LeftGives(t: Tree, i: int, u: Outcome) {
    && HasChild(t, i) && HasChild(t, i - 1) && Child(t, i).Under? && Child(t, i - 1).Two?
    && var b := Child(t, i - 1);
       && u.status == 0 && SameElsewhere(t, i - 1, b.q, u.tree)
       && Child(u.tree, i - 1) == One(b.p, b.l, b.m) && Child(u.tree, i) == One(PairAt(t, i - 1), b.r, Child(t, i).c)
  }

  /** Child `i` and its left sibling, or child 0 and its right one, become one node with the pair
      between them; the third child of a two-pair node is not touched. */
  ghost predicate Joins(t: Tree, i: int, u: Outcome) {
    && HasChild(t, i) && HasChild(t, Sibling(i)) && Child(t, i).Under? && Child(t, Sibling(i)).One?
    && var (b, c) := (Child(t, Sibling(i)), Child(t, i).c);
       var node := if i == 0 then Two(t.p, b.p, c, b.l, b.r) else Two(b.p, PairAt(t, i - 1), b.l, b.r, c);
       if t.One? then u == Outcome(1, Under(node))
       else u == Outcome(0, if i == 2 then One(t.p, t.l, node) else One(t.q, node, t.r))
  }

  /** How a node gets a child without pairs back into shape: the right sibling gives if it has two
      pairs; only otherwise the left one if it has two; only otherwise two nodes become one. */
  ghost predicate Mended(t: Tree, i: int, u: Outcome)
    requires HasChild(t, i)
  {
    if HasChild(t, i + 1) && Child(t, i + 1).Two? then RightGives(t, i, u)
    else if HasChild(t, i - 1) && Child(t, i - 1).Two? then LeftGives(t, i, u)
    else Joins(t, i, u)
  }

  lemma RepairAsksRightFirst(t: Tree, i: int, h: nat)
    requires Broken(t, i, h) && IsNode(Child(t, Sibling(i)))
    ensures Mended(t, i, Repair(t, i))
  {}

  // ---------- deletion (containers/btree.c:359-491) ----------

  /** A node whose child `i` has become `o.tree`. */
  function Settle(t: Tree, i: int, o: Outcome): Outcome
    requires HasChild(t, i)
  {
    var u := WithChild(t, i, o.tree);
    if o.status == 1 && o.tree.Under? && IsNode(Child(t, Sibling(i))) then Repair(u, i)
    else Outcome(o.status, u)
  }

  /** Removes the leftmost pair. */
  function EraseMin(t: Tree): Outcome {
    match t
    case One(p, l, r) => if l.Nil? then Outcome(1, Under(l)) else Settle(t, 0, EraseMin(l))
    case Two(p, q, l, m, r) => if l.Nil? then Outcome(0, One(q, l, m)) else Settle(t, 0, EraseMin(l))
    case _ => Outcome(-1, t)
  }

  function MinPair(t: Tree): Pair
    requires IsNode(t)
  {
    if IsNode(t.l) then MinPair(t.l) else t.p
  }

  function WithPair(t: Tree, i: int, x: Pair): Tree
    requires IsNode(t)
  {
    match t
    case One(p, l, r) => One(x, l, r)
    case Two(p, q, l, m, r) => if i == 0 then Two(x, q, l, m, r) else Two(p, x, l, m, r)
  }

  /** Removes pair `i` of the node itself: a leaf drops it, an inner node replaces it by the
      smallest pair to its right. */
  function EraseHere(t: Tree, i: int): Outcome
    requires IsNode(t) && 0 <= i && HasChild(t, i + 1)
  {
    var c := Child(t, i + 1);
    if IsNode(c) then Settle(WithPair(t, i, MinPair(c)), i + 1, EraseMin(c))
    else if i == 0 then EraseMin(t)
    else Outcome(0, One(t.p, t.l, t.m))
  }

  function Erase(cmp: Comparator, t: Tree, k: Blob): Outcome
    decreases t
  {
    if !IsNode(t) then Outcome(-1, t)
    else
      var i := Route(cmp, t, k);
      if i < 0 then EraseHere(t, -1 - i) else Settle(t, i, Erase(cmp, Child(t, i), k))
  }

  /** Deletion from a whole tree: a root without pairs gives way to its one subtree. */
  function EraseRoot(cmp: Comparator, t: Tree, k: Blob): Outcome {
    var o := Erase(cmp, t, k);
    if o.status == 1 && o.tree.Under? then Outcome(0, o.tree.c) else o
  }

  lemma SettleShape(cmp: Comparator, t: Tree, i: int, o: Outcome, h: nat)
    requires Full(t, h) && HasChild(t, i) && EraseResult(Child(t, i), o, h - 1) && (o.status == 1 ==> h > 1)
    ensures EraseResult(t, Settle(t, i, o), h) && (Settle(t, i, o).status == -1 <==> o.status == -1)
    ensures Flat(cmp, Settle(t, i, o).tree) == Left(cmp, t, i) + Flat(cmp, o.tree) + Right(cmp, t, i)
  {
    var u := WithChild(t, i, o.tree);
    FlatAround(cmp, t, i, o.tree);
    ChildAround(cmp, t, i);
    FullChild(t, h, i, o.tree);
    if o.status == 1 {
      assert Broken(u, i, h);
      assert Child(u, Sibling(i)) == Child(t, Sibling(i));
      RepairShape(u, i, h);
      RepairFlat(cmp, u, i);
    }
  }

  lemma EraseMinLeaf(cmp: Comparator, t: Tree)
    requires IsLeaf(t)
    ensures EraseResult(t, EraseMin(t), 1) && EraseMin(t).status >= 0
    ensures Flat(cmp, t) == [MinPair(t)] + Flat(cmp, EraseMin(t).tree)
  {
    assert Flat(cmp, t) == if t.One? then [t.p] else [t.p, t.q];
    assert Flat(cmp, EraseMin(t).tree) == if t.One? then [] else [t.q];
  }

  /** Erasing the minimum: the first pair goes, nothing else changes. */
  lemma {:induction false} EraseMinRemoves(cmp: Comparator, t: Tree, h: nat)
    requires Full(t, h) && IsNode(t)
    ensures EraseResult(t, EraseMin(t), h) && EraseMin(t).status >= 0
    ensures Flat(cmp, t) == [MinPair(t)] + Flat(cmp, EraseMin(t).tree)
  {
    if t.l.Nil? {
      EraseMinLeaf(cmp, t);
    } else {
      var o := EraseMin(t.l);
      EraseMinRemoves(cmp, t.l, h - 1);
      SettleShape(cmp, t, 0, o, h);
      ChildAround(cmp, t, 0);
      FirstOut(MinPair(t), Flat(cmp, o.tree), Right(cmp, t, 0));
    }
  }

  lemma FirstOut<T>(x: T, a: seq<T>, b: seq<T>)
    ensures [] + ([x] + a) + b == [x] + ([] + a + b)
  {}

  /** A child that came back empty sends its parent to the repair, which can always act. */
  lemma SettleIsRepair(t: Tree, i: int, o: Outcome, h: nat)
    requires Full(t, h) && HasChild(t, i) && h > 1 && EraseResult(Child(t, i), o, h - 1) && o.status == 1
    ensures var u := WithChild(t, i, o.tree);
            && HasChild(u, i) && Broken(u, i, h) && IsNode(Child(u, Sibling(i)))
            && Settle(t, i, o) == Repair(u, i)
  {
    var u := WithChild(t, i, o.tree);
    assert Child(u, Sibling(i)) == Child(t, Sibling(i));
    BrokenSiblings(u, i, h);
  }

  /** One step of the descent to the minimum below child `i`. */
  lemma EraseMinStep(t: Tree, i: int, h: nat)
    requires Full(t, h) && HasChild(t, i) && IsNode(Child(t, i))
    ensures var c := Child(t, i);
            h > 1 && Full(c, h - 1) && EraseResult(c, EraseMin(c), h - 1)
    ensures i == 0 ==> EraseMin(t) == Settle(t, 0, EraseMin(Child(t, 0)))
  {
    FullChild(t, h, i, Child(t, i));
    EraseMinRemoves(NoOrder, Child(t, i), h - 1);
  }

  /** The shape of the result does not depend on the comparator. */
  const NoOrder: Comparator := (a, b) => 0

  /** What deletion has to achieve below `t`. */
  ghost predicate Erases(cmp: Comparator, t: Tree, k: Blob, o: Outcome) {
    && (HasKey(cmp, Flat(cmp, t), k) <==> o.status >= 0)
    && Flat(cmp, o.tree) == Without(cmp, Flat(cmp, t), k)
  }

  function PairLeft(cmp: Comparator, t: Tree, i: int): seq<Pair>
    requires IsNode(t) && 0 <= i && HasChild(t, i + 1)
  {
    if i == 0 then Flat(cmp, t.l) else Flat(cmp, t.l) + [t.p] + Flat(cmp, t.m)
  }

  function PairRight(cmp: Comparator, t: Tree, i: int): seq<Pair>
    requires IsNode(t) && 0 <= i && HasChild(t, i + 1)
  {
    Flat(cmp, Child(t, i + 1)) + Right(cmp, t, i + 1)
  }

  /** The number of the pair that the way down stops at. */
  function Found(cmp: Comparator, t: Tree, k: Blob): (n: nat)
    requires Finds(cmp, t, k)
    decreases t
  {
    var i := Route(cmp, t, k);
    if i < 0 then |PairLeft(cmp, t, -1 - i)| else |Left(cmp, t, i)| + Found(cmp, Child(t, i), k)
  }

  lemma PairAround(cmp: Comparator, t: Tree, i: int)
    requires IsNode(t) && 0 <= i && HasChild(t, i + 1)
    ensures Left(cmp, t, i + 1) == PairLeft(cmp, t, i) + [PairAt(t, i)]
    ensures Flat(cmp, t) == PairLeft(cmp, t, i) + [PairAt(t, i)] + PairRight(cmp, t, i)
  {
    ChildAround(cmp, t, i + 1);
    var a, x, c, b := PairLeft(cmp, t, i), PairAt(t, i), Flat(cmp, Child(t, i + 1)), Right(cmp, t, i + 1);
    assert a + [x] + c + b == a + [x] + (c + b);
  }

  /** Erasing pair `i` of an inner node puts the smallest pair to its right in its place. */
  lemma EraseHereInner(cmp: Comparator, t: Tree, i: int, h: nat)
    requires Full(t, h) && IsNode(t) && 0 <= i && HasChild(t, i + 1) && IsNode(Child(t, i + 1))
    ensures EraseResult(t, EraseHere(t, i), h) && EraseHere(t, i).status >= 0
    ensures Flat(cmp, EraseHere(t, i).tree) == PairLeft(cmp, t, i) + PairRight(cmp, t, i)
  {
    var c := Child(t, i + 1);
    var u, o := WithPair(t, i, MinPair(c)), EraseMin(c);
    EraseMinRemoves(cmp, c, h - 1);
    assert Full(u, h) && Child(u, i + 1) == c;
    SettleShape(cmp, u, i + 1, o, h);
    PairAround(cmp, u, i);
    Refill(PairLeft(cmp, t, i), MinPair(c), Flat(cmp, o.tree), Right(cmp, t, i + 1));
  }

  lemma Refill<T>(a: seq<T>, x: T, c: seq<T>, b: seq<T>)
    ensures a + [x] + c + b == a + ([x] + c + b)
  {}

  lemma EraseHereLeaf(cmp: Comparator, t: Tree, i: int)
    requires IsLeaf(t) && 0 <= i && HasChild(t, i + 1)
    ensures EraseResult(t, EraseHere(t, i), 1) && EraseHere(t, i).status >= 0
    ensures Flat(cmp, EraseHere(t, i).tree) == PairLeft(cmp, t, i) + PairRight(cmp, t, i)
  {
    if i == 0 {
      EraseMinLeaf(cmp, t);
      assert PairLeft(cmp, t, i) == [] && Flat(cmp, t) == [t.p] + PairRight(cmp, t, i);
    } else {
      assert PairLeft(cmp, t, i) == [t.p] && PairRight(cmp, t, i) == [];
      assert Flat(cmp, EraseHere(t, i).tree) == [t.p];
    }
  }

  /** What deletion does to a proper tree that need not be in order: it keeps the shape, and it
      takes out the pair that the way down for `k` stops at, or nothing if it stops at none. */
  lemma {:induction false} EraseTakesOne(cmp: Comparator, t: Tree, k: Blob, h: nat) returns (j: nat)
    requires Full(t, h)
    ensures EraseResult(t, Erase(cmp, t, k), h) && (Erase(cmp, t, k).status == -1 <==> !Finds(cmp, t, k))
    ensures Finds(cmp, t, k) ==> j == Found(cmp, t, k) && TakenOut(cmp, t, k, Erase(cmp, t, k), j)
  {
    j := 0;
    if IsNode(t) {
      var i := Route(cmp, t, k);
      if i < 0 {
        j := EraseHereTakesOne(cmp, t, -1 - i, k, h);
      } else {
        FullChild(t, h, i, Child(t, i));
        j := EraseTakesOne(cmp, Child(t, i), k, h - 1);
        EraseBelowSettles(cmp, t, i, k, h);
        if Finds(cmp, t, k) { j := EraseBelowTakesOne(cmp, t, i, k, h, j); }
      }
    }
  }

  /** The result lacks pair `j`, which has the key `k`. */
  ghost predicate TakenOut(cmp: Comparator, t: Tree, k: Blob, o: Outcome, j: nat) {
    && j < |Flat(cmp, t)| && cmp(k, Flat(cmp, t)[j].key) == 0
    && Flat(cmp, o.tree) == Removed(Flat(cmp, t), j)
  }

  lemma EraseHereIsRight(cmp: Comparator, t: Tree, i: int, h: nat)
    requires Full(t, h) && IsNode(t) && 0 <= i && HasChild(t, i + 1)
    ensures EraseResult(t, EraseHere(t, i), h) && EraseHere(t, i).status >= 0
    ensures Flat(cmp, EraseHere(t, i).tree) == PairLeft(cmp, t, i) + PairRight(cmp, t, i)
  {
    if IsNode(Child(t, i + 1)) {
      EraseHereInner(cmp, t, i, h);
    } else {
      OnlyLeafHasNoChild(t, i + 1, h);
      EraseHereLeaf(cmp, t, i);
    }
  }

  lemma OnlyLeafHasNoChild(t: Tree, i: int, h: nat)
    requires Full(t, h) && IsNode(t) && HasChild(t, i) && !IsNode(Child(t, i))
    ensures IsLeaf(t) && h == 1
  {}

  lemma EraseHereTakesOne(cmp: Comparator, t: Tree, i: int, k: Blob, h: nat) returns (j: nat)
    requires Full(t, h) && IsNode(t) && 0 <= i && HasChild(t, i + 1) && cmp(k, PairAt(t, i).key) == 0
    ensures EraseResult(t, EraseHere(t, i), h) && EraseHere(t, i).status >= 0
    ensures j == |PairLeft(cmp, t, i)| && TakenOut(cmp, t, k, EraseHere(t, i), j)
  {
    PairAround(cmp, t, i);
    EraseHereIsRight(cmp, t, i, h);
    j := |PairLeft(cmp, t, i)|;
    RemovedAround(PairLeft(cmp, t, i), PairAt(t, i), PairRight(cmp, t, i), j);
  }

  /** Deletion below child `i`: shape, status and sequence of pairs. */
  lemma EraseBelowSettles(cmp: Comparator, t: Tree, i: int, k: Blob, h: nat)
    requires Full(t, h) && IsNode(t) && i == Route(cmp, t, k) && i >= 0
    requires EraseResult(Child(t, i), Erase(cmp, Child(t, i), k), h - 1)
    ensures EraseResult(t, Erase(cmp, t, k), h)
    ensures Erase(cmp, t, k).status == -1 <==> Erase(cmp, Child(t, i), k).status == -1
    ensures Flat(cmp, Erase(cmp, t, k).tree) ==
            Left(cmp, t, i) + Flat(cmp, Erase(cmp, Child(t, i), k).tree) + Right(cmp, t, i)
  {
    FullChild(t, h, i, Child(t, i));
    SettleShape(cmp, t, i, Erase(cmp, Child(t, i), k), h);
  }

  lemma EraseBelowTakesOne(cmp: Comparator, t: Tree, i: int, k: Blob, h: nat, j: nat) returns (m: nat)
    requires Full(t, h) && IsNode(t) && i == Route(cmp, t, k) && i >= 0
    requires EraseResult(Child(t, i), Erase(cmp, Child(t, i), k), h - 1)
    requires TakenOut(cmp, Child(t, i), k, Erase(cmp, Child(t, i), k), j)
    ensures m == |Left(cmp, t, i)| + j && TakenOut(cmp, t, k, Erase(cmp, t, k), m)
  {
    m := |Left(cmp, t, i)| + j;
    EraseBelowSettles(cmp, t, i, k, h);
    ChildAround(cmp, t, i);
    TakenOutInside(cmp, t, Child(t, i), Left(cmp, t, i), Right(cmp, t, i), k, Erase(cmp, Child(t, i), k),
                   Erase(cmp, t, k), j);
  }

  /** What a child lacks its parent lacks. */
  lemma TakenOutInside(cmp: Comparator, t: Tree, c: Tree, a: seq<Pair>, b: seq<Pair>, k: Blob, o: Outcome, u: Outcome,
                       j: nat)
    requires Flat(cmp, t) == a + Flat(cmp, c) + b && Flat(cmp, u.tree) == a + Flat(cmp, o.tree) + b
    requires TakenOut(cmp, c, k, o, j)
    ensures TakenOut(cmp, t, k, u, |a| + j)
  {
    RemovedInside(a, Flat(cmp, c), b, j);
  }

  lemma RemovedInside<T>(a: seq<T>, c: seq<T>, b: seq<T>, j: nat)
    requires j < |c|
    ensures (a + c + b)[|a| + j] == c[j] && Removed(a + c + b, |a| + j) == a + Removed(c, j) + b
  {
    RemovedLeft(a + c, b, |a| + j);
    RemovedRight(a, c, j);
  }

  /** Deletion removes exactly the pair with the wanted key and says whether there was one;
      it gives back a proper tree of the same height, or -- status 1 -- a node without pairs
      over one proper subtree, which the caller's rotation or merge repairs. */
  lemma {:induction false} EraseIsRight(cmp: Comparator, t: Tree, k: Blob, h: nat)
    requires ThreeWay(cmp) && Full(t, h) && InOrder(cmp, Flat(cmp, t))
    ensures EraseResult(t, Erase(cmp, t, k), h) && Erases(cmp, t, k, Erase(cmp, t, k))
  {
    if IsNode(t) {
      var i := Route(cmp, t, k);
      RouteSeparates(cmp, t, k);
      if i < 0 {
        EraseKeyHere(cmp, t, k, h);
      } else {
        FullChild(t, h, i, Child(t, i));
        EraseIsRight(cmp, Child(t, i), k, h - 1);
        EraseBelow(cmp, t, k, h);
      }
    }
  }

  lemma EraseKeyHere(cmp: Comparator, t: Tree, k: Blob, h: nat)
    requires ThreeWay(cmp) && Full(t, h) && IsNode(t) && InOrder(cmp, Flat(cmp, t)) && Route(cmp, t, k) < 0
    ensures EraseResult(t, Erase(cmp, t, k), h) && Erases(cmp, t, k, Erase(cmp, t, k))
  {
    var i := -1 - Route(cmp, t, k);
    RouteSeparates(cmp, t, k);
    NodeInOrder(cmp, t);
    PairAround(cmp, t, i);
    WithoutHere(cmp, PairLeft(cmp, t, i), PairAt(t, i), PairRight(cmp, t, i), k);
    EraseHereIsRight(cmp, t, i, h);
  }

  lemma EraseBelow(cmp: Comparator, t: Tree, k: Blob, h: nat)
    requires ThreeWay(cmp) && Full(t, h) && IsNode(t) && InOrder(cmp, Flat(cmp, t)) && Route(cmp, t, k) >= 0
    requires var c := Child(t, Route(cmp, t, k));
             EraseResult(c, Erase(cmp, c, k), h - 1) && Erases(cmp, c, k, Erase(cmp, c, k))
    ensures EraseResult(t, Erase(cmp, t, k), h) && Erases(cmp, t, k, Erase(cmp, t, k))
  {
    var i := Route(cmp, t, k);
    var c, a, b := Child(t, i), Left(cmp, t, i), Right(cmp, t, i);
    RouteSeparates(cmp, t, k);
    ChildAround(cmp, t, i);
    BetweenHas(cmp, a, Flat(cmp, c), b, k);
    BetweenWithout(cmp, a, Flat(cmp, c), b, k);
    SettleShape(cmp, t, i, Erase(cmp, c, k), h);
  }

  /** Deletion from a proper tree gives a proper tree that holds everything but the pair with
      that key; an absent key is reported and changes nothing. */
  lemma EraseRootIsRight(cmp: Comparator, t: Tree, k: Blob)
    requires ThreeWay(cmp) && Proper(cmp, t)
    ensures var o := EraseRoot(cmp, t, k);
            && Proper(cmp, o.tree) && Flat(cmp, o.tree) == Without(cmp, Flat(cmp, t), k)
            && o.status == (if HasKey(cmp, Flat(cmp, t), k) then 0 else -1)
            && (o.status == -1 ==> o.tree == t)
  {
    var h, o := Depth(t), Erase(cmp, t, k);
    EraseIsRight(cmp, t, k, h);
    WithoutInOrder(cmp, Flat(cmp, t), k);
    FullDepth(EraseRoot(cmp, t, k).tree, if o.status == 1 then h - 1 else h);
  }

  /** Deletion from a whole tree, in order or not. */
  lemma EraseRootTakesOne(cmp: Comparator, t: Tree, k: Blob) returns (j: nat)
    requires Full(t, Depth(t))
    ensures var o := EraseRoot(cmp, t, k);
            && Full(o.tree, Depth(o.tree)) && (o.status == 0 || (o.status == -1 && o.tree == t))
            && (o.status == 0 <==> Finds(cmp, t, k))
            && (o.status == 0 ==> j == Found(cmp, t, k) && TakenOut(cmp, t, k, o, j))
  {
    var h, o := Depth(t), Erase(cmp, t, k);
    j := EraseTakesOne(cmp, t, k, h);
    FullDepth(EraseRoot(cmp, t, k).tree, if o.status == 1 then h - 1 else h);
  }

  /** One step of the descent, as the caller of the recursion sees it. */
  lemma EraseStep(cmp: Comparator, t: Tree, k: Blob, h: nat)
    requires Full(t, h) && IsNode(t) && Route(cmp, t, k) >= 0
    ensures var i := Route(cmp, t, k);
            var o := Erase(cmp, Child(t, i), k);
            && h > 0 && Full(Child(t, i), h - 1)
            && EraseResult(Child(t, i), o, h - 1) && (o.status == 1 ==> h > 1)
            && Erase(cmp, t, k) == Settle(t, i, o)
  {
    var i := Route(cmp, t, k);
    FullChild(t, h, i, Child(t, i));
    var j := EraseTakesOne(cmp, Child(t, i), k, h - 1);
  }

  lemma EraseHereStep(t: Tree, i: int, h: nat)
    requires Full(t, h) && IsNode(t) && 0 <= i && HasChild(t, i + 1) && IsNode(Child(t, i + 1))
    ensures var c := Child(t, i + 1);
            var u := WithPair(t, i, MinPair(c));
            && h > 1 && Full(c, h - 1) && Full(u, h) && HasChild(u, i + 1) && Child(u, i + 1) == c
            && EraseResult(c, EraseMin(c), h - 1)
            && EraseHere(t, i) == Settle(u, i + 1, EraseMin(c))
  {
    EraseMinRemoves(NoOrder, Child(t, i + 1), h - 1);
  }
}
