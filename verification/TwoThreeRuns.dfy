/** Runs of operations on the 2-3 tree of containers/btree.c, its capacity, and inputs that
    meet the two slips of its insertion. */
module TwoThreeRuns {
  import opened Words
  import opened Ordering
  import opened Pairs
  import opened TwoThree
  import opened TwoThreeErase

  // ---------- counting and capacity ----------

  /** The pairs of a tree, however they are ordered, each counted with its weight. */
  function Weight(t: Tree, f: Pair -> nat): nat {
    match t
    case Nil => 0
    case One(p, l, r) => f(p) + Weight(l, f) + Weight(r, f)
    case Two(p, q, l, m, r) => f(p) + f(q) + Weight(l, f) + Weight(m, f) + Weight(r, f)
    case Over(p, q, l, m, r, x, xc) =>
      f(p) + f(q) + f(x) + Weight(l, f) + Weight(m, f) + Weight(r, f) + Weight(xc, f)
    case Under(c) => Weight(c, f)
  }

  function Total(s: seq<Pair>, f: Pair -> nat): nat {
    if s == [] then 0 else f(s[0]) + Total(s[1..], f)
  }

  lemma {:induction false} TotalConcat(a: seq<Pair>, b: seq<Pair>, f: Pair -> nat)
    ensures Total(a + b, f) == Total(a, f) + Total(b, f)
  {
    if a == [] {
      assert a + b == b;
    } else {
      assert (a + b)[1..] == a[1..] + b;
      TotalConcat(a[1..], b, f);
    }
  }

  lemma TotalAround(a: seq<Pair>, p: Pair, b: seq<Pair>, f: Pair -> nat)
    ensures Total(a + [p] + b, f) == Total(a, f) + f(p) + Total(b, f)
  {
    TotalConcat(a + [p], b, f);
    TotalConcat(a, [p], f);
  }

  lemma {:induction false} WeightIsTotal(cmp: Comparator, t: Tree, f: Pair -> nat, h: nat)
    requires Full(t, h)
    ensures Weight(t, f) == Total(Flat(cmp, t), f)
  {
    match t
    case One(p, l, r) =>
      WeightIsTotal(cmp, l, f, h - 1);
      WeightIsTotal(cmp, r, f, h - 1);
      TotalAround(Flat(cmp, l), p, Flat(cmp, r), f);
    case Two(p, q, l, m, r) =>
      WeightIsTotal(cmp, l, f, h - 1);
      WeightIsTotal(cmp, m, f, h - 1);
      WeightIsTotal(cmp, r, f, h - 1);
      TotalAround(Flat(cmp, l), p, Flat(cmp, m), f);
      TotalAround(Flat(cmp, l) + [p] + Flat(cmp, m), q, Flat(cmp, r), f);
    case _ =>
  }

  /** Splitting, and storing the halves rightly or wrongly, moves pairs and keeps them all. */
  lemma SplitUpKeepsWeight(cmp: Comparator, t: Tree, f: Pair -> nat)
    requires t.Over?
    ensures var v := SplitUp(cmp, t); Weight(v.left, f) + f(v.mid) + Weight(v.right, f) == Weight(t, f)
  {}

  lemma TakeHalvesKeepsWeight(t: Tree, i: int, v: Halves, fix: bool, f: Pair -> nat)
    requires HasChild(t, i)
    ensures Weight(TakeHalves(t, i, v, fix).tree, f) + Weight(Child(t, i), f) ==
            Weight(t, f) + Weight(v.left, f) + f(v.mid) + Weight(v.right, f)
  {}

  /** An insertion adds its pair unless it is refused. */
  lemma {:induction false} InsertAdds(cmp: Comparator, t: Tree, x: Pair, fix: bool, f: Pair -> nat, h: nat)
    requires Full(t, h)
    ensures var o := Insert(cmp, t, x, fix); Weight(o.tree, f) == Weight(t, f) + if o.status == -1 then 0 else f(x)
  {
    if IsNode(t) && !IsLeaf(t) && Route(cmp, t, x.key) >= 0 {
      var i := Route(cmp, t, x.key);
      var o := Insert(cmp, Child(t, i), x, fix);
      InsertStep(cmp, t, x, fix, h);
      InsertAdds(cmp, Child(t, i), x, fix, f, h - 1);
      if o.status == 1 {
        SplitUpKeepsWeight(cmp, o.tree, f);
        TakeHalvesKeepsWeight(t, i, SplitUp(cmp, o.tree), fix, f);
      }
    }
  }

  lemma InsertRootAdds(cmp: Comparator, t: Tree, x: Pair, fix: bool, f: Pair -> nat)
    requires Full(t, Depth(t))
    ensures var o := InsertRoot(cmp, t, x, fix);
            && (o.status == 0 || (o.status == -1 && o.tree == t)) && Full(o.tree, Depth(o.tree))
            && Total(Flat(cmp, o.tree), f) == Total(Flat(cmp, t), f) + if o.status == -1 then 0 else f(x)
  {
    var h, o, u := Depth(t), Insert(cmp, t, x, fix), InsertRoot(cmp, t, x, fix);
    InsertKeepsShape(cmp, t, x, fix, h);
    InsertAdds(cmp, t, x, fix, f, h);
    if o.status == 1 {
      RootSplit(cmp, o, h);
      SplitUpKeepsWeight(cmp, o.tree, f);
      FullDepth(u.tree, h + 1);
    } else {
      FullDepth(o.tree, if h == 0 then 1 else h);
    }
    WeightIsTotal(cmp, t, f, h);
    WeightIsTotal(cmp, u.tree, f, Depth(u.tree));
  }

  const Each: Pair -> nat := _ => 1

  function Only(y: Pair): Pair -> nat {
    p => if p == y then 1 else 0
  }

  lemma {:induction false} TotalOfEach(s: seq<Pair>)
    ensures Total(s, Each) == |s|
  {
    if s != [] { TotalOfEach(s[1..]); }
  }

  lemma {:induction false} TotalOfOnly(s: seq<Pair>, y: Pair)
    ensures Total(s, Only(y)) == multiset(s)[y]
  {
    if s != [] {
      TotalOfOnly(s[1..], y);
      assert s == [s[0]] + s[1..];
    }
  }

  lemma OneMore(s: seq<Pair>, t: seq<Pair>, x: Pair, y: Pair)
    requires Total(t, Only(y)) == Total(s, Only(y)) + Only(y)(x)
    ensures multiset(t)[y] == (multiset(s) + multiset{x})[y]
  {
    TotalOfOnly(s, y);
    TotalOfOnly(t, y);
  }

  /** As written, an insertion that is not refused adds exactly its pair, wherever the slips put
      it; and the tree keeps its shape. */
  lemma InsertConserves(cmp: Comparator, t: Tree, x: Pair, fix: bool)
    requires Full(t, Depth(t))
    ensures var o := InsertRoot(cmp, t, x, fix);
            && (o.status == 0 || (o.status == -1 && o.tree == t)) && Full(o.tree, Depth(o.tree))
            && |Flat(cmp, o.tree)| == |Flat(cmp, t)| + o.status + 1
            && (o.status == 0 ==> multiset(Flat(cmp, o.tree)) == multiset(Flat(cmp, t)) + multiset{x})
  {
    var u := InsertRoot(cmp, t, x, fix);
    var a, b := multiset(Flat(cmp, t)), multiset(Flat(cmp, u.tree));
    InsertRootAdds(cmp, t, x, fix, Each);
    TotalOfEach(Flat(cmp, t));
    TotalOfEach(Flat(cmp, u.tree));
    if u.status == 0 {
      forall y ensures b[y] == (a + multiset{x})[y] {
        InsertRootAdds(cmp, t, x, fix, Only(y));
        OneMore(Flat(cmp, t), Flat(cmp, u.tree), x, y);
      }
    }
  }

  lemma {:induction false} Power2Grows(m: nat, n: nat)
    requires m <= n
    ensures Power2(m) <= Power2(n)
    decreases n - m
  {
    if m < n { Power2Grows(m, n - 1); }
  }

  /** A 2-3 tree of height `h` holds at least 2^h - 1 pairs. */
  lemma {:induction false} Capacity(cmp: Comparator, t: Tree, h: nat)
    requires Full(t, h)
    ensures |Flat(cmp, t)| >= Power2(h) - 1
  {
    match t
    case One(_, l, r) =>
      Capacity(cmp, l, h - 1);
      Capacity(cmp, r, h - 1);
    case Two(_, _, l, m, r) =>
      Capacity(cmp, l, h - 1);
      Capacity(cmp, m, h - 1);
      Capacity(cmp, r, h - 1);
    case _ =>
  }

  /** With fewer than 2^(n+1) - 1 pairs no way down has more than `n` steps. */
  lemma FewPairsFitTrack(cmp: Comparator, t: Tree, h: nat, n: nat)
    requires Full(t, h) && |Flat(cmp, t)| < Power2(n + 1) - 1
    ensures h <= n
  {
    Capacity(cmp, t, h);
    if h > n { Power2Grows(n + 1, h); }
  }

  /** While the 32-bit size counts the pairs, no way down has more than 32 steps. */
  lemma HeightFitsTrack(cmp: Comparator, t: Tree, h: nat)
    requires Full(t, h) && |Flat(cmp, t)| < WORD
    ensures h <= 32
  {
    Capacity(cmp, t, h);
    Power2Of33();
    if h > 32 { Power2Grows(33, h); }
  }

  lemma Power2Of33()
    ensures Power2(33) == 0x2_0000_0000
  {
    assert Power2(8) == 256 && Power2(16) == 0x1_0000 && Power2(24) == 0x100_0000;
    assert Power2(32) == WORD;
  }

  // ---------- runs ----------

  datatype Op = Put(pair: Pair) | Drop(key: Blob)

  function Apply(cmp: Comparator, t: Tree, op: Op): Outcome {
    match op
    case Put(x) => InsertRoot(cmp, t, x, false)
    case Drop(k) => EraseRoot(cmp, t, k)
  }

  /** The tree after a run of insertions and deletions, as written. */
  function Run(cmp: Comparator, t: Tree, ops: seq<Op>): Tree
    decreases |ops|
  {
    if ops == [] then t else Run(cmp, Apply(cmp, t, ops[0]).tree, ops[1..])
  }

  /** What the run should leave: ascending pairs, first come first kept. */
  ghost function Intended(cmp: Comparator, s: seq<Pair>, ops: seq<Op>): seq<Pair>
    decreases |ops|
  {
    if ops == [] then s
    else
      var s' := match ops[0]
                case Put(x) => if HasKey(cmp, s, x.key) then s else With(cmp, s, x)
                case Drop(k) => Without(cmp, s, k);
      Intended(cmp, s', ops[1..])
  }

  /** No insertion of the run meets a slip. */
  predicate Clean(cmp: Comparator, t: Tree, ops: seq<Op>)
    decreases |ops|
  {
    ops != [] ==>
      && (ops[0].Put? ==> !Hazard(cmp, t, ops[0].pair.key))
      && Clean(cmp, Apply(cmp, t, ops[0]).tree, ops[1..])
  }

  /** One operation, in a tree that need not be in order: the shape is kept; an insertion adds
      its pair or is refused; a deletion takes out one pair with an equal key or nothing. */
  ghost predicate Accounted(cmp: Comparator, t: Tree, op: Op, o: Outcome) {
    && Full(o.tree, Depth(o.tree)) && (o.status == 0 || (o.status == -1 && o.tree == t))
    && (o.status == 0 ==>
          match op
          case Put(x) => multiset(Flat(cmp, o.tree)) == multiset(Flat(cmp, t)) + multiset{x}
          case Drop(k) => exists j: nat :: TakenOut(cmp, t, k, o, j))
  }

  /** Every operation of the run is accounted for. */
  ghost predicate AllAccounted(cmp: Comparator, t: Tree, ops: seq<Op>)
    decreases |ops|
  {
    ops != [] ==>
      Accounted(cmp, t, ops[0], Apply(cmp, t, ops[0])) && AllAccounted(cmp, Apply(cmp, t, ops[0]).tree, ops[1..])
  }

  /** Every run, slips and all: one or two pairs in every node and all leaves at the same depth,
      no pair lost and none made up. */
  lemma {:induction false} EveryRunKeepsShape(cmp: Comparator, t: Tree, ops: seq<Op>)
    requires Full(t, Depth(t))
    ensures Full(Run(cmp, t, ops), Depth(Run(cmp, t, ops))) && AllAccounted(cmp, t, ops)
    decreases |ops|
  {
    if ops != [] {
      match ops[0] {
        case Put(x) => InsertConserves(cmp, t, x, false);
        case Drop(k) => var j := EraseRootTakesOne(cmp, t, k);
      }
      EveryRunKeepsShape(cmp, Apply(cmp, t, ops[0]).tree, ops[1..]);
    }
  }

  /** Every run that meets no slip, of any length and from any proper tree, ends in a proper
      tree that holds what it should. */
  lemma {:induction false} CleanRunsAreRight(cmp: Comparator, t: Tree, ops: seq<Op>)
    requires ThreeWay(cmp) && Proper(cmp, t) && Clean(cmp, t, ops)
    ensures Proper(cmp, Run(cmp, t, ops)) && Flat(cmp, Run(cmp, t, ops)) == Intended(cmp, Flat(cmp, t), ops)
    decreases |ops|
  {
    if ops != [] {
      match ops[0] {
        case Put(x) => InsertExactly(cmp, t, x);
        case Drop(k) => EraseRootIsRight(cmp, t, k);
      }
      CleanRunsAreRight(cmp, Apply(cmp, t, ops[0]).tree, ops[1..]);
    }
  }

  /** The first insertion of a run that meets a slip breaks the promise. */
  lemma SlipsAreSeen(cmp: Comparator, t: Tree, ops: seq<Op>, x: Pair)
    requires ThreeWay(cmp) && Proper(cmp, t) && Clean(cmp, t, ops) && Hazard(cmp, Run(cmp, t, ops), x.key)
    ensures !InsertPromise(cmp, Run(cmp, t, ops), x, Apply(cmp, Run(cmp, t, ops), Put(x)))
  {
    CleanRunsAreRight(cmp, t, ops);
    InsertExactly(cmp, Run(cmp, t, ops), x);
  }

  /** A key above everything goes down the right edge, where there is no slip. */
  lemma {:induction false} AboveIsNoHazard(cmp: Comparator, t: Tree, k: Blob, h: nat)
    requires ThreeWay(cmp) && Full(t, h) && Lower(cmp, Flat(cmp, t), k)
    ensures !Hazard(cmp, t, k)
  {
    match t
    case Nil =>
    case One(p, l, r) =>
      KeysOfConcat(Flat(cmp, l) + [p], Flat(cmp, r));
      KeysOfConcat(Flat(cmp, l), [p]);
      LowerParts(cmp, Flat(cmp, l), p, Flat(cmp, r), k);
      AboveIsNoHazard(cmp, r, k, h - 1);
    case Two(p, q, l, m, r) =>
      LowerParts(cmp, Flat(cmp, l) + [p] + Flat(cmp, m), q, Flat(cmp, r), k);
      LowerParts(cmp, Flat(cmp, l), p, Flat(cmp, m), k);
      AboveIsNoHazard(cmp, r, k, h - 1);
  }

  lemma LowerParts(cmp: Comparator, a: seq<Pair>, p: Pair, b: seq<Pair>, k: Blob)
    requires ThreeWay(cmp) && Lower(cmp, a + [p] + b, k)
    ensures Lower(cmp, a, k) && Lower(cmp, b, k) && cmp(k, p.key) > 0
  {
    var s := KeysOf(a + [p] + b);
    assert s[|a|] == p.key;
    Mirror(cmp, p.key, k);
    forall i | 0 <= i < |a| ensures cmp(KeysOf(a)[i], k) < 0 { assert s[i] == KeysOf(a)[i]; }
    forall i | 0 <= i < |b| ensures cmp(KeysOf(b)[i], k) < 0 { assert s[|a| + 1 + i] == KeysOf(b)[i]; }
  }

  function Puts(s: seq<Pair>): (ops: seq<Op>)
    ensures |ops| == |s| && forall i :: 0 <= i < |s| ==> ops[i] == Put(s[i])
  {
    seq(|s|, i requires 0 <= i < |s| => Put(s[i]))
  }

  /** Ascending insertion never meets a slip: every ascending sequence of pairs, however
      long, ends in a proper tree that holds exactly that sequence. */
  lemma {:induction false} AscendingInsertionIsRight(cmp: Comparator, t: Tree, s: seq<Pair>)
    requires ThreeWay(cmp) && Proper(cmp, t) && InOrder(cmp, Flat(cmp, t) + s)
    ensures Clean(cmp, t, Puts(s))
    ensures var u := Run(cmp, t, Puts(s)); Proper(cmp, u) && Flat(cmp, u) == Flat(cmp, t) + s
    decreases |s|
  {
    var f := Flat(cmp, t);
    if s == [] {
      assert f + s == f;
    } else {
      var x, u := s[0], Apply(cmp, t, Put(s[0])).tree;
      assert f + s == f + [x] + s[1..];
      InOrderAround(cmp, f, x, s[1..]);
      AboveIsNoHazard(cmp, t, x.key, Depth(t));
      InsertExactly(cmp, t, x);
      PlacedAtEnd(cmp, KeysOf(f), x.key);
      assert With(cmp, f, x) == f + [x];
      assert Puts(s)[1..] == Puts(s[1..]);
      AscendingInsertionIsRight(cmp, u, s[1..]);
    }
  }

  // ---------- the two slips at work ----------

  function Key(n: byte): Pair {
    Pair(Blob([n]), Blob([]))
  }

  /** Compares the first bytes; a blob without one counts as 0. */
  function FirstByte(a: Blob): int {
    if a.bytes == [] then 0 else a.bytes[0]
  }

  const ByFirstByte: Comparator := (a: Blob, b: Blob) => FirstByte(a) - FirstByte(b)

  lemma FlatOne(p: Pair)
    ensures Flat(ByFirstByte, One(p, Nil, Nil)) == [p]
  {}

  /** A full leaf takes a key that it already holds: inserting 1 and 2 and then 1 again
      succeeds every time and leaves three pairs. */
  lemma DuplicateIsAccepted()
    ensures ThreeWay(ByFirstByte)
    ensures var run := [Put(Key(1)), Put(Key(2))];
            var t := Run(ByFirstByte, Nil, run);
            && Clean(ByFirstByte, Nil, run) && HasKey(ByFirstByte, Flat(ByFirstByte, t), Key(1).key)
            && Apply(ByFirstByte, t, Put(Key(1))).status == 0
            && |Flat(ByFirstByte, Apply(ByFirstByte, t, Put(Key(1))).tree)| == 3
  {
    var cmp := ByFirstByte;
    var t := Two(Key(1), Key(2), Nil, Nil, Nil);
    assert Apply(cmp, Nil, Put(Key(1))).tree == One(Key(1), Nil, Nil);
    assert Apply(cmp, One(Key(1), Nil, Nil), Put(Key(2))).tree == t;
    var run := [Put(Key(1)), Put(Key(2))];
    assert run[1..] == [Put(Key(2))] && run[1..][1..] == [];
    assert Run(cmp, Nil, run) == Run(cmp, One(Key(1), Nil, Nil), run[1..]) == Run(cmp, t, []) == t;
    assert Clean(cmp, One(Key(1), Nil, Nil), run[1..]);
    assert KeysOf(Flat(cmp, t))[0] == Key(1).key;
    assert Apply(cmp, t, Put(Key(1))).tree == One(Key(1), One(Key(1), Nil, Nil), One(Key(2), Nil, Nil));
  }

  /** An insertion that meets no slip. */
  predicate Puts1(t: Tree, n: byte, u: Tree) {
    !Hazard(ByFirstByte, t, Key(n).key) && Apply(ByFirstByte, t, Put(Key(n))).tree == u
  }

  lemma RunOn(t: Tree, n: byte, u: Tree, ops: seq<Op>)
    requires Puts1(t, n, u)
    ensures Run(ByFirstByte, t, [Put(Key(n))] + ops) == Run(ByFirstByte, u, ops)
    ensures Clean(ByFirstByte, t, [Put(Key(n))] + ops) == Clean(ByFirstByte, u, ops)
  {
    assert ([Put(Key(n))] + ops)[1..] == ops;
  }

  lemma FourPuts() returns (t: Tree)
    ensures t == One(Key(5), Two(Key(3), Key(4), Nil, Nil, Nil), One(Key(7), Nil, Nil))
    ensures var run := [Put(Key(5))] + ([Put(Key(3))] + ([Put(Key(7))] + ([Put(Key(4))] + [])));
            Run(ByFirstByte, Nil, run) == t && Clean(ByFirstByte, Nil, run)
  {
    var t1 := One(Key(5), Nil, Nil);
    var t2 := Two(Key(3), Key(5), Nil, Nil, Nil);
    var t3 := One(Key(5), One(Key(3), Nil, Nil), One(Key(7), Nil, Nil));
    t := One(Key(5), Two(Key(3), Key(4), Nil, Nil, Nil), One(Key(7), Nil, Nil));
    RunOn(t3, 4, t, []);
    RunOn(t2, 7, t3, [Put(Key(4))] + []);
    RunOn(t1, 3, t2, [Put(Key(7))] + ([Put(Key(4))] + []));
    RunOn(Nil, 5, t1, [Put(Key(3))] + ([Put(Key(7))] + ([Put(Key(4))] + [])));
  }

  /** The fifth insertion splits child 0 of that tree. */
  lemma FifthPut(t: Tree)
    requires t == One(Key(5), Two(Key(3), Key(4), Nil, Nil, Nil), One(Key(7), Nil, Nil))
    ensures Flat(ByFirstByte, t) == [Key(3), Key(4), Key(5), Key(7)]
    ensures Apply(ByFirstByte, t, Put(Key(1))).tree ==
            Two(Key(5), Key(3), One(Key(4), Nil, Nil), One(Key(1), Nil, Nil), One(Key(7), Nil, Nil))
  {
    assert Flat(ByFirstByte, t.l) == [Key(3), Key(4)];
    FlatOne(Key(7));
  }

  /** The halves of child 0 go to the wrong places: inserting 5, 3, 7, 4 and 1 leaves the pairs
      in the order 4, 5, 1, 3, 7. */
  lemma OrderIsLost()
    ensures var run := [Put(Key(5)), Put(Key(3)), Put(Key(7)), Put(Key(4))];
            var t := Run(ByFirstByte, Nil, run);
            && Clean(ByFirstByte, Nil, run)
            && Flat(ByFirstByte, t) == [Key(3), Key(4), Key(5), Key(7)]
            && Flat(ByFirstByte, Apply(ByFirstByte, t, Put(Key(1))).tree) == [Key(4), Key(5), Key(1), Key(3), Key(7)]
  {
    var t := FourPuts();
    assert [Put(Key(5)), Put(Key(3)), Put(Key(7)), Put(Key(4))] ==
           [Put(Key(5))] + ([Put(Key(3))] + ([Put(Key(7))] + ([Put(Key(4))] + [])));
    FifthPut(t);
    FlatOne(Key(1));
    FlatOne(Key(4));
    FlatOne(Key(7));
  }

  /** Afterwards search finds exactly 4, 5 and 7: the way down for 1 and 3 goes to child 0, where
      they no longer are, and a second 3 is accepted. */
  lemma AfterOrderIsLost(k: Blob)
    ensures var t := Run(ByFirstByte, Nil, [Put(Key(5)), Put(Key(3)), Put(Key(7)), Put(Key(4))]);
            var u := Apply(ByFirstByte, t, Put(Key(1))).tree;
            && (Finds(ByFirstByte, u, k) <==> FirstByte(k) == 4 || FirstByte(k) == 5 || FirstByte(k) == 7)
            && Apply(ByFirstByte, u, Put(Key(3))).status == 0
  {
    var t := FourPuts();
    assert [Put(Key(5)), Put(Key(3)), Put(Key(7)), Put(Key(4))] ==
           [Put(Key(5))] + ([Put(Key(3))] + ([Put(Key(7))] + ([Put(Key(4))] + [])));
    FifthPut(t);
    SearchAfterwards(k);
  }

  lemma SearchAfterwards(k: Blob)
    ensures var u := Two(Key(5), Key(3), One(Key(4), Nil, Nil), One(Key(1), Nil, Nil), One(Key(7), Nil, Nil));
            && (Finds(ByFirstByte, u, k) <==> FirstByte(k) == 4 || FirstByte(k) == 5 || FirstByte(k) == 7)
            && Apply(ByFirstByte, u, Put(Key(3))).status == 0
  {
    var cmp, l, r := ByFirstByte, One(Key(4), Nil, Nil), One(Key(7), Nil, Nil);
    var u := Two(Key(5), Key(3), l, One(Key(1), Nil, Nil), r);
    assert Finds(cmp, l, k) <==> FirstByte(k) == 4;
    assert Finds(cmp, r, k) <==> FirstByte(k) == 7;
    assert Insert(cmp, l, Key(3), false) == Outcome(0, Two(Key(3), Key(4), Nil, Nil, Nil));
  }

  // ---------- a deletion that can ask either sibling ----------

  /** 10, 20, 30, 40, 50, 5 and 60. */
  function SevenPuts(): seq<Op> {
    [Put(Key(10))] + ([Put(Key(20))] + ([Put(Key(30))] + ([Put(Key(40))]
    + ([Put(Key(50))] + ([Put(Key(5))] + ([Put(Key(60))] + []))))))
  }

  function Leaf1(n: byte): Tree {
    One(Key(n), Nil, Nil)
  }

  function Leaf2(m: byte, n: byte): Tree {
    Two(Key(m), Key(n), Nil, Nil, Nil)
  }

  lemma ThreePuts(ops: seq<Op>)
    ensures var run := [Put(Key(10))] + ([Put(Key(20))] + ([Put(Key(30))] + ops));
            var t := One(Key(20), Leaf1(10), Leaf1(30));
            && Run(ByFirstByte, Nil, run) == Run(ByFirstByte, t, ops)
            && Clean(ByFirstByte, Nil, run) == Clean(ByFirstByte, t, ops)
  {
    RunOn(Leaf2(10, 20), 30, One(Key(20), Leaf1(10), Leaf1(30)), ops);
    RunOn(Leaf1(10), 20, Leaf2(10, 20), [Put(Key(30))] + ops);
    RunOn(Nil, 10, Leaf1(10), [Put(Key(20))] + ([Put(Key(30))] + ops));
  }

  lemma TwoMorePuts(ops: seq<Op>)
    ensures var run := [Put(Key(40))] + ([Put(Key(50))] + ops);
            var t, u := One(Key(20), Leaf1(10), Leaf1(30)), Two(Key(20), Key(40), Leaf1(10), Leaf1(30), Leaf1(50));
            && Run(ByFirstByte, t, run) == Run(ByFirstByte, u, ops)
            && Clean(ByFirstByte, t, run) == Clean(ByFirstByte, u, ops)
  {
    var t := One(Key(20), Leaf1(10), Leaf2(30, 40));
    RunOn(t, 50, Two(Key(20), Key(40), Leaf1(10), Leaf1(30), Leaf1(50)), ops);
    RunOn(One(Key(20), Leaf1(10), Leaf1(30)), 40, t, [Put(Key(50))] + ops);
  }

  lemma LastTwoPuts(ops: seq<Op>)
    ensures var run := [Put(Key(5))] + ([Put(Key(60))] + ops);
            var t := Two(Key(20), Key(40), Leaf1(10), Leaf1(30), Leaf1(50));
            var u := Two(Key(20), Key(40), Leaf2(5, 10), Leaf1(30), Leaf2(50, 60));
            && Run(ByFirstByte, t, run) == Run(ByFirstByte, u, ops)
            && Clean(ByFirstByte, t, run) == Clean(ByFirstByte, u, ops)
  {
    var t := Two(Key(20), Key(40), Leaf2(5, 10), Leaf1(30), Leaf1(50));
    RunOn(t, 60, Two(Key(20), Key(40), Leaf2(5, 10), Leaf1(30), Leaf2(50, 60)), ops);
    RunOn(Two(Key(20), Key(40), Leaf1(10), Leaf1(30), Leaf1(50)), 5, t, [Put(Key(60))] + ops);
  }

  lemma AfterSevenPuts() returns (t: Tree)
    ensures t == Two(Key(20), Key(40), Leaf2(5, 10), Leaf1(30), Leaf2(50, 60))
    ensures Run(ByFirstByte, Nil, SevenPuts()) == t && Clean(ByFirstByte, Nil, SevenPuts())
  {
    t := Two(Key(20), Key(40), Leaf2(5, 10), Leaf1(30), Leaf2(50, 60));
    var o6 := [Put(Key(5))] + ([Put(Key(60))] + []);
    var o4 := [Put(Key(40))] + ([Put(Key(50))] + o6);
    ThreePuts(o4);
    TwoMorePuts(o6);
    LastTwoPuts([]);
  }

  /** Erasing 30 empties the middle child, and the right sibling gives 50 although the left one
      could give 10; the full leaf on the left then accepts a second 5. */
  lemma RightSiblingGives()
    ensures var t := Run(ByFirstByte, Nil, SevenPuts());
            var o := Apply(ByFirstByte, t, Drop(Key(30).key));
            && Clean(ByFirstByte, Nil, SevenPuts())
            && o == Outcome(0, Two(Key(20), Key(50), Leaf2(5, 10), Leaf1(40), Leaf1(60)))
            && Apply(ByFirstByte, o.tree, Put(Key(5))).status == 0
  {
    var t := AfterSevenPuts();
    EraseThirty(t);
    PutFiveAgain();
  }

  lemma EraseThirty(t: Tree)
    requires t == Two(Key(20), Key(40), Leaf2(5, 10), Leaf1(30), Leaf2(50, 60))
    ensures EraseRoot(ByFirstByte, t, Key(30).key) ==
            Outcome(0, Two(Key(20), Key(50), Leaf2(5, 10), Leaf1(40), Leaf1(60)))
  {
    assert Erase(ByFirstByte, t.m, Key(30).key) == Outcome(1, Under(Nil));
    assert Route(ByFirstByte, t, Key(30).key) == 1;
    var u := Two(Key(20), Key(40), Leaf2(5, 10), Under(Nil), Leaf2(50, 60));
    assert RotateLeft(u, 1) == Two(Key(20), Key(50), Leaf2(5, 10), Leaf1(40), Leaf1(60));
  }

  lemma PutFiveAgain()
    ensures var t := Two(Key(20), Key(50), Leaf2(5, 10), Leaf1(40), Leaf1(60));
            InsertRoot(ByFirstByte, t, Key(5), false).status == 0
  {
    assert Insert(ByFirstByte, Leaf2(5, 10), Key(5), false).status == 1;
  }
}
