/** The 2-3 tree of containers/btree.c as its callers see it. */
module BTree {
  import opened Checks
  import opened Options
  import opened Words
  import opened Sequences
  import opened Ordering
  import opened Pairs
  import opened BTreeNode
  import opened BTreeIterator
  import opened BTreeInsert
  import opened BTreeErase
  import T = TwoThree
  import E = TwoThreeErase
  import R = TwoThreeRuns
  import W = WaysDown

  lemma WithoutAround(cmp: Comparator, s: seq<Pair>, a: seq<Pair>, p: Pair, b: seq<Pair>)
    requires ThreeWay(cmp) && InOrder(cmp, s) && s == a + [p] + b
    ensures HasKey(cmp, s, p.key) && Without(cmp, s, p.key) == a + b
  {
    InOrderAround(cmp, a, p, b);
    assert Mirrored(cmp, p.key, p.key);
    assert KeysOf(s)[|a|] == p.key;
    WithoutHere(cmp, a, p, b, p.key);
  }

  lemma SplitAt(s: seq<Pair>, i: nat)
    requires i < |s|
    ensures s == s[..i] + [s[i]] + s[i + 1..]
  {}

  /** What the insertion as written does to a tree: it loses neither shape nor count, and in an
      ordered tree keeps its promise exactly when the way down meets no slip. */
  lemma InsertFacts(cmp: Comparator, t: T.Tree, x: Pair)
    requires ThreeWay(cmp) && T.Full(t, T.Depth(t))
    ensures var o := T.InsertRoot(cmp, t, x, false);
            && (o.status == 0 || (o.status == -1 && o.tree == t))
            && (o.status == -1 <==> W.Refuses(cmp, t, x.key))
            && T.Full(o.tree, T.Depth(o.tree))
            && |T.Flat(cmp, o.tree)| == (if o.status != -1 then |T.Flat(cmp, t)| + 1 else |T.Flat(cmp, t)|)
            && (InOrder(cmp, T.Flat(cmp, t)) ==>
                  (T.InsertPromise(cmp, t, x, o) <==> !T.Hazard(cmp, t, x.key)))
  {
    R.InsertConserves(cmp, t, x, false);
    W.InsertionRefusesExactly(cmp, t, x, T.Depth(t));
    if InOrder(cmp, T.Flat(cmp, t)) { T.InsertExactly(cmp, t, x); }
  }

  /** What deletion does to a tree: it keeps the shape and takes out a pair with the wanted key
      or nothing, and in an ordered tree it misses none. */
  lemma EraseFacts(cmp: Comparator, t: T.Tree, k: Blob)
    requires ThreeWay(cmp) && T.Full(t, T.Depth(t))
    ensures var (o, s) := (E.EraseRoot(cmp, t, k), T.Flat(cmp, t));
            && (o.status == 0 || (o.status == -1 && o.tree == t))
            && T.Full(o.tree, T.Depth(o.tree))
            && |T.Flat(cmp, o.tree)| == (if o.status != -1 then |s| - 1 else |s|)
            && (o.status == 0 ==> Lacks(cmp, T.Flat(cmp, o.tree), s, k))
            && W.TakesLed(cmp, t, k, o)
            && (InOrder(cmp, s) ==>
                  && o.status == (if HasKey(cmp, s, k) then 0 else -1)
                  && InOrder(cmp, T.Flat(cmp, o.tree)) && T.Flat(cmp, o.tree) == Without(cmp, s, k))
  {
    var j := E.EraseRootTakesOne(cmp, t, k);
    W.DeletionTakesLed(cmp, t, k, T.Depth(t));
    if InOrder(cmp, T.Flat(cmp, t)) { E.EraseRootIsRight(cmp, t, k); }
  }

  /** `s` is `was` without one pair whose key equals `k`. */
  ghost predicate Lacks(cmp: Comparator, s: seq<Pair>, was: seq<Pair>, k: Blob) {
    exists j: nat :: j < |was| && cmp(k, was[j].key) == 0 && s == Removed(was, j)
  }

  /** One or two pairs in every node, every leaf at the same depth, and `size` their number. */
  ghost function Condition(cmp: Comparator, root: Node?, size: nat, s: Shape): Health
    reads Repr(s)
  {
    if root == Root(s) && Check(s).Sound? && T.Full(Value(s), T.Depth(Value(s))) && size == Wrap(|Flat(cmp, s)|)
    then Sound else Unsound
  }

  /** Insertion below the root, and a new root when it has split. */
  method InsertAtTop(cmp: Comparator, root: Node?, x: Pair, ghost size: nat, ghost s: Shape)
    returns (status: int, newroot: Node, ghost s': Shape)
    requires ThreeWay(cmp) && Condition(cmp, root, size, s).Sound?
    modifies Repr(s)
    ensures Condition(cmp, newroot, if status != -1 then Wrap(size + 1) else size, s').Sound?
    ensures forall n :: n in Repr(s') ==> n in Repr(s) || fresh(n)
    ensures T.Outcome(status, Value(s')) == T.InsertRoot(cmp, Value(s), x, false)
    ensures status == -1 ==> s' == s
  {
    assert allocated(Repr(s));
    ghost var h := T.Depth(Value(s));
    T.InsertKeepsShape(cmp, Value(s), x, false, h);
    status, newroot, s' := RecursiveInsert(cmp, root, x, s, h);
    if status == 1 {
      newroot, s' := SplitRoot(cmp, newroot, s');
      status := 0;
    }
    InsertFacts(cmp, Value(s), x);
    CountUp(size, |Flat(cmp, s)|, if status != -1 then Wrap(size + 1) else size, |Flat(cmp, s')|);
  }

  /** Deletion below the root; a root that has lost its last pair gives way to its one child. */
  method EraseAtTop(cmp: Comparator, root: Node?, k: Blob, ghost size: nat, ghost s: Shape)
    returns (status: int, newroot: Node?, ghost s': Shape)
    requires ThreeWay(cmp) && Condition(cmp, root, size, s).Sound?
    modifies Repr(s)
    ensures Condition(cmp, newroot, if status != -1 then Wrap(size - 1) else size, s').Sound? && Repr(s') <= Repr(s)
    ensures T.Outcome(status, Value(s')) == E.EraseRoot(cmp, Value(s), k)
  {
    ghost var h := T.Depth(Value(s));
    ghost var j := E.EraseTakesOne(cmp, Value(s), k, h);
    newroot := root;
    status, s' := RecursiveErase(cmp, root, k, s, h);
    if status == 1 {
      assert s'.Under? && Fits(s') && Check(s'.c).Sound?;
      status, newroot, s' := 0, root.childs[0], s'.c;
    }
    EraseFacts(cmp, Value(s), k);
    CountDown(size, |Flat(cmp, s)|, if status != -1 then Wrap(size - 1) else size, |Flat(cmp, s')|);
  }

  class Tree {
    var size: nat
    var root: Node?
    const comp: Comparator
    ghost var shape: Shape

    ghost function Value(): T.Tree
      reads this
    {
      BTreeNode.Value(shape)
    }

    /** The pairs from left to right. */
    ghost function Contents(): seq<Pair>
      reads this
    {
      Flat(comp, shape)
    }

    ghost function Height(): nat
      reads this
    {
      T.Depth(Value())
    }

    ghost predicate Valid()
      reads this, Repr(shape)
    {
      ThreeWay(comp) && Condition(comp, root, size, shape).Sound?
    }

    /** The insertion as written may lose the order (see `Insert`), so it is not part of `Valid`. */
    ghost predicate Ordered()
      reads this
    {
      InOrder(comp, Contents())
    }

    /** The iterator stands on pair number `i`. */
    ghost predicate On(it: Iterator, i: int)
      reads this
    {
      Standing(comp, shape, it, i)
    }

    /** What an iterator that left pair `i` for pair `j` has become. */
    ghost predicate OnOrInvalid(it: Iterator, j: int)
      reads this
    {
      if 0 <= j < |Contents()| then On(it, j) else it == INVALID
    }

    constructor (comp: Comparator)
      requires ThreeWay(comp)
      ensures Valid() && Contents() == [] && shape == Nil && this.comp == comp
    {
      this.comp := comp;
      size, root, shape := 0, null, Nil;
    }

    /** containers/btree.c:232-269 */
    method Insert(pair: Pair) returns (status: int)
      requires Valid()
      modifies this`size, this`root, this`shape, Repr(shape)
      ensures Valid()
      ensures forall n :: n in Repr(shape) ==> n in old(Repr(shape)) || fresh(n)
      ensures status == 0 || (status == -1 && shape == old(shape))
      ensures |Contents()| == |old(Contents())| + status + 1
      ensures T.Outcome(status, Value()) == T.InsertRoot(comp, old(Value()), pair, false)
      // in any tree: refused exactly if the comparisons lead to a pair that is not in a full leaf
      ensures status == -1 <==> W.Refuses(comp, old(Value()), pair.key)
      // in an ordered tree: the promise is kept exactly when the way down meets no slip
      ensures old(Ordered()) ==>
                (T.InsertPromise(comp, old(Value()), pair, T.Outcome(status, Value())) <==>
                 !T.Hazard(comp, old(Value()), pair.key))
      ensures old(Ordered()) && !T.Hazard(comp, old(Value()), pair.key) ==>
                Ordered() && if HasKey(comp, old(Contents()), pair.key)
                             then status == -1
                             else status == 0 && Contents() == With(comp, old(Contents()), pair)
    {
      status := InsertPair(pair);
      InsertFacts(comp, old(Value()), pair);
    }

    /** Adds a pair; InsertFacts says what that does to the pairs. */
    method InsertPair(pair: Pair) returns (status: int)
      requires Valid()
      modifies this`size, this`root, this`shape, Repr(shape)
      ensures Valid()
      ensures forall n :: n in Repr(shape) ==> n in old(Repr(shape)) || fresh(n)
      ensures status == -1 ==> shape == old(shape)
      ensures T.Outcome(status, Value()) == T.InsertRoot(comp, old(Value()), pair, false)
    {
      ghost var s';
      var newroot;
      status, newroot, s' := InsertAtTop(comp, root, pair, size, shape);
      Install(newroot, if status != -1 then Wrap(size + 1) else size, s');
    }

    method Install(newroot: Node?, newsize: nat, ghost s': Shape)
      requires ThreeWay(comp) && Condition(comp, newroot, newsize, s').Sound?
      modifies this`root, this`size, this`shape
      ensures Valid() && root == newroot && size == newsize && shape == s'
    {
      assert allocated(Repr(s'));
      root, size, shape := newroot, newsize, s';
    }

    /** The search for a key (containers/btree.c:134-137). */
    method PtrAt(key: Blob) returns (status: int, it: Iterator, ghost i: nat)
      requires Valid() && HasRoom()
      ensures status == if T.Finds(comp, Value(), key) then 0 else -1
      ensures status == 0 ==> i < |Contents()| && On(it, i) && comp(key, Contents()[i].key) == 0
      // in any tree: the pair that the comparisons lead to, and none if they lead to none
      ensures status == 0 ==> W.Led(comp, Value(), key, i)
      ensures status == -1 ==> it == INVALID && forall n: nat :: !W.Led(comp, Value(), key, n)
      // in an ordered tree the search misses nothing
      ensures Ordered() ==> (status == 0 <==> HasKey(comp, Contents(), key))
    {
      EmptyTrack(comp, shape);
      if Ordered() { T.SearchIsComplete(comp, Value(), key, Height()); }
      status, it := RecursiveSearch(comp, root, INVALID, key, shape, Height());
      if status == 0 {
        i := FoundStands(comp, shape, it, key);
      } else {
        i := 0;
        W.LedIsFound(comp, Value(), key);
      }
    }

    /** Removes the pair an iterator stands on (containers/btree.c:475-491); in a tree that has
        lost its order another pair with an equal key, or none when the way down misses it. */
    method Erase(elem: Iterator, ghost i: nat) returns (status: int)
      requires Valid() && On(elem, i)
      modifies this`size, this`root, this`shape, Repr(shape)
      ensures Valid() && Repr(shape) <= old(Repr(shape)) && i < |old(Contents())|
      ensures T.Outcome(status, Value()) == E.EraseRoot(comp, old(Value()), old(Contents())[i].key)
      ensures status == 0 || (status == -1 && Contents() == old(Contents()))
      ensures status == 0 ==> Lacks(comp, Contents(), old(Contents()), old(Contents())[i].key)
      // the pair that the comparisons with the iterator's key lead to, whatever the order
      ensures W.TakesLed(comp, old(Value()), old(Contents())[i].key, T.Outcome(status, Value()))
      ensures old(Ordered()) ==> Ordered() && status == 0 && Contents() == Removed(old(Contents()), i)
    {
      StandingGives(comp, shape, elem, i);
      var k := elem.node.kv[elem.which].value.key;
      if Ordered() {
        SplitAt(Contents(), i);
        WithoutAround(comp, Contents(), Contents()[..i], Contents()[i], Contents()[i + 1..]);
      }
      status := EraseKey(k);
      EraseFacts(comp, old(Value()), k);
    }

    /** Removes a pair with a key; EraseFacts says what that does to the pairs. */
    method EraseKey(k: Blob) returns (status: int)
      requires Valid()
      modifies this`size, this`root, this`shape, Repr(shape)
      ensures Valid() && Repr(shape) <= old(Repr(shape))
      ensures T.Outcome(status, Value()) == E.EraseRoot(comp, old(Value()), k)
    {
      ghost var s';
      var newroot;
      status, newroot, s' := EraseAtTop(comp, root, k, size, shape);
      Install(newroot, if status != -1 then Wrap(size - 1) else size, s');
    }

    // ---------- iteration (containers/btree.c:501-607) ----------

    /** The way down fits into the track. */
    ghost predicate HasRoom()
      reads this
    {
      Height() <= TRACK_SLOTS
    }

    /** It does as long as there are fewer than 2^101 - 1 pairs, hence as long as the 32-bit size
        is their number. */
    lemma Room()
      requires Valid() && |Contents()| < Power2(TRACK_SLOTS + 1) - 1
      ensures HasRoom()
    {
      R.FewPairsFitTrack(comp, Value(), Height(), TRACK_SLOTS);
    }

    method Begin() returns (it: Iterator)
      requires Valid() && HasRoom()
      ensures Valid()
      ensures OnOrInvalid(it, 0)
    {
      assert allocated(Repr(shape));
      it := BTreeIterator.Begin(comp, root, shape, Height());
      if root != null { StandingRange(comp, shape, it, 0); }
      assert Check(shape) == old(Check(shape));
    }

    method End() returns (it: Iterator)
      requires Valid() && HasRoom()
      ensures Valid()
      ensures OnOrInvalid(it, |Contents()| - 1)
    {
      assert allocated(Repr(shape));
      it := BTreeIterator.End(comp, root, shape, Height());
      if root != null { StandingRange(comp, shape, it, |Contents()| - 1); }
      assert Check(shape) == old(Check(shape));
    }

    method Next(it: Iterator, ghost i: nat) returns (next: Iterator)
      requires Valid() && HasRoom() && On(it, i)
      ensures Valid()
      ensures i < |Contents()| && OnOrInvalid(next, i + 1)
    {
      assert allocated(Repr(shape));
      StandingRange(comp, shape, it, i);
      next := BTreeIterator.Next(comp, it, shape, Height(), i);
      assert Check(shape) == old(Check(shape));
    }

    method Prev(it: Iterator, ghost i: nat) returns (prev: Iterator)
      requires Valid() && HasRoom() && On(it, i)
      ensures Valid()
      ensures i < |Contents()| && OnOrInvalid(prev, i - 1)
    {
      assert allocated(Repr(shape));
      StandingRange(comp, shape, it, i);
      prev := BTreeIterator.Prev(comp, it, shape, Height(), i);
      assert Check(shape) == old(Check(shape));
    }

    /** qBTreeIterator_deref */
    function Deref(it: Iterator, ghost i: nat): (pair: Pair)
      requires Valid() && On(it, i)
      reads this, Repr(shape), it.node
      ensures i < |Contents()| && pair == Contents()[i]
    {
      StandingGives(comp, shape, it, i);
      it.node.kv[it.which].value
    }

    /** Sound: the tree is valid and the iterator, unless it is off the end, stands on pair `j`. */
    ghost function Walk(it: Iterator, j: int): Health
      reads this, Repr(shape)
    {
      if Valid() && HasRoom() && OnOrInvalid(it, j) then Sound else Unsound
    }

    method TakeAndGoOn(it: Iterator, ghost i: nat) returns (pair: Pair, next: Iterator)
      requires Walk(it, i).Sound? && it.node != null
      ensures i < |Contents()| && Contents()[..i] + [pair] == Contents()[..i + 1] && Walk(next, i + 1).Sound?
    {
      pair := Deref(it, i);
      next := Next(it, i);
    }

    method TakeAndGoBack(it: Iterator, ghost i: int) returns (pair: Pair, prev: Iterator)
      requires Walk(it, i).Sound? && it.node != null
      ensures 0 <= i < |Contents()| && pair == Contents()[i] && Walk(prev, i - 1).Sound?
    {
      pair := Deref(it, i);
      prev := Prev(it, i);
    }

    /** Off the end there is no number of a pair left. */
    lemma OffTheEnd(it: Iterator, j: int)
      requires Walk(it, j).Sound? && it.node == null
      ensures j < 0 || j >= |Contents()|
    {}

    /** The loop over begin, isvalid, next (tests/btree_test.c) sees every pair once, in order. */
    method Ascend() returns (seen: seq<Pair>)
      requires Valid() && HasRoom()
      ensures seen == Contents()
    {
      seen := [];
      ghost var all := Contents();
      var it := Begin();
      while it.node != null
        invariant Walk(it, |seen|).Sound? && all == Contents()
        invariant |seen| <= |all| && seen == all[..|seen|]
        decreases |all| - |seen|
      {
        var pair;
        pair, it := TakeAndGoOn(it, |seen|);
        seen := seen + [pair];
      }
      OffTheEnd(it, |seen|);
    }

    /** The loop over end, isvalid, prev sees them in the opposite order. */
    method Descend() returns (seen: seq<Pair>)
      requires Valid() && HasRoom()
      ensures seen == Backwards(Contents(), |Contents()|)
    {
      seen := [];
      ghost var all, i := Contents(), |Contents()| - 1;
      var it := End();
      while it.node != null
        invariant Walk(it, i).Sound? && all == Contents()
        invariant -1 <= i < |all| == i + 1 + |seen| && seen == Backwards(all, |seen|)
        decreases i
      {
        BackwardsOn(all, |seen|);
        var pair;
        pair, it := TakeAndGoBack(it, i);
        seen := seen + [pair];
        i := i - 1;
      }
      OffTheEnd(it, i);
    }

    /** A number has one iterator, however it was reached: `prev` undoes `next`, and both agree
        with `PtrAt`. */
    lemma OneIterator(a: Iterator, b: Iterator, i: int)
      requires On(a, i) && On(b, i)
      ensures a == b
    {
      StandingUnique(comp, shape, a, b, i);
    }

    method NextThenPrev(it: Iterator, ghost i: nat) returns (next: Iterator, back: Iterator)
      requires Valid() && HasRoom() && On(it, i)
      ensures next.node != null ==> back == it
    {
      next := Next(it, i);
      back := INVALID;
      if next.node != null {
        back := Prev(next, i + 1);
        OneIterator(it, back, i);
      }
    }

    method PrevThenNext(it: Iterator, ghost i: nat) returns (prev: Iterator, back: Iterator)
      requires Valid() && HasRoom() && On(it, i)
      ensures prev.node != null ==> back == it
    {
      prev := Prev(it, i);
      back := INVALID;
      if prev.node != null {
        back := Next(prev, i - 1);
        OneIterator(it, back, i);
      }
    }
  }

  /** An overfull root is split under a new root. */
  method SplitRoot(cmp: Comparator, root: Node, ghost s: Shape) returns (newroot: Node, ghost s': Shape)
    requires s.Over? && root == s.node && Check(s).Sound?
    modifies root
    ensures Check(s').Sound? && newroot == Root(s')
    ensures forall n :: n in Repr(s') ==> n in Repr(s) || fresh(n)
    ensures var v := T.SplitUp(cmp, Value(s)); Value(s') == T.One(v.mid, v.left, v.right)
  {
    assert allocated(Repr(s));
    var newrootchild := new Node();
    assert Check(s) == old(Check(s));
    ghost var left, right;
    var newrootpair;
    newrootpair, left, right := SplitUp(cmp, root, newrootchild, s);
    newroot := new Node();
    label L:
    newroot.kv := [Some(newrootpair), None];
    newroot.childs := [newrootchild, root, null];
    assert Check(left) == old@L(Check(left)) && Check(right) == old@L(Check(right));
    s' := One(newroot, newrootpair, left, right);
    Assemble(s');
  }
}
