/** Runs on the search tree of containers/AVLTree.c that lose its balance. */
module LostBalance {
  import opened Ordering
  import opened AvlShape
  import opened AvlDeletion
  import opened Balance
  import opened AscendingInsertion

  function Leaf(n: Node, k: Blob): Shape {
    Bin(n, k, Nil, Nil)
  }

  lemma LeafFacts(n: Node, k: Blob)
    ensures Height(Leaf(n, k)) == 1 && Factor(Leaf(n, k)) == 0 && Balanced(Leaf(n, k))
  {}

  /** The tree after the first `i` insertions of a run. */
  function After(cmp: Comparator, ks: seq<Blob>, ns: seq<Node>, i: nat): Shape
    requires i <= |ks| == |ns|
  {
    InsertAll(cmp, Nil, ks[..i], ns[..i])
  }

  lemma {:induction false} InsertAllThenOne(cmp: Comparator, s: Shape, ks: seq<Blob>, ns: seq<Node>, k: Blob, n: Node)
    requires |ks| == |ns|
    ensures InsertAll(cmp, s, ks + [k], ns + [n]) == Insert(cmp, InsertAll(cmp, s, ks, ns), k, n)
    decreases |ks|
  {
    if ks == [] {
      var t := Insert(cmp, s, k, n);
      assert [k][1..] == [] && [n][1..] == [] && InsertAll(cmp, t, [], []) == t;
      assert ks + [k] == [k] && ns + [n] == [n];
    } else {
      assert (ks + [k])[1..] == ks[1..] + [k] && (ns + [n])[1..] == ns[1..] + [n];
      InsertAllThenOne(cmp, Insert(cmp, s, ks[0], ns[0]), ks[1..], ns[1..], k, n);
    }
  }

  lemma Next(cmp: Comparator, ks: seq<Blob>, ns: seq<Node>, i: nat)
    requires i < |ks| == |ns|
    ensures After(cmp, ks, ns, i + 1) == Insert(cmp, After(cmp, ks, ns, i), ks[i], ns[i])
  {
    assert ks[..i + 1] == ks[..i] + [ks[i]] && ns[..i + 1] == ns[..i] + [ns[i]];
    InsertAllThenOne(cmp, Nil, ks[..i], ns[..i], ks[i], ns[i]);
  }

  /** An ascending sequence compares as its positions say. */
  lemma Ranks(cmp: Comparator, k: seq<Blob>)
    requires ThreeWay(cmp) && Sorted(cmp, k)
    ensures forall i, j :: 0 <= i < j < |k| ==> cmp(k[i], k[j]) < 0 && cmp(k[j], k[i]) > 0
    ensures forall i :: 0 <= i < |k| ==> cmp(k[i], k[i]) == 0
  {
    forall i, j | 0 <= i <= j < |k|
      ensures if i == j then cmp(k[i], k[i]) == 0 else cmp(k[i], k[j]) < 0 && cmp(k[j], k[i]) > 0
    {
      Mirror(cmp, k[i], k[j]);
    }
  }

  /** Three elements, the second below the first and the third above it. */
  lemma FirstThree(cmp: Comparator, o: seq<Blob>, n: seq<Node>)
    requires |o| == |n| >= 3 && cmp(o[1], o[0]) < 0 && cmp(o[2], o[0]) > 0
    ensures After(cmp, o, n, 3) == Bin(n[0], o[0], Leaf(n[1], o[1]), Leaf(n[2], o[2]))
  {
    var two := Bin(n[0], o[0], Leaf(n[1], o[1]), Nil);
    assert After(cmp, o, n, 0) == Nil;
    Next(cmp, o, n, 0);
    assert After(cmp, o, n, 1) == Leaf(n[0], o[0]);
    Next(cmp, o, n, 1);
    assert Insert(cmp, Leaf(n[0], o[0]), o[1], n[1]) == two;
    Next(cmp, o, n, 2);
    assert Insert(cmp, two, o[2], n[2]) == two.(r := Leaf(n[2], o[2]));
  }

  // ---------- by an insertion ----------

  /** 10, 5, 30, 20, 40, 25; `k` holds the six elements in ascending order. */
  function SixElements(k: seq<Blob>): seq<Blob>
    requires |k| == 6
  {
    [k[1], k[0], k[4], k[2], k[5], k[3]]
  }

  lemma FiveInsertions(cmp: Comparator, k: seq<Blob>, n: seq<Node>) returns (t: Shape)
    requires ThreeWay(cmp) && Sorted(cmp, k) && |k| == |n| == 6
    ensures t == After(cmp, SixElements(k), n, 5)
    ensures t == Bin(n[0], k[1], Leaf(n[1], k[0]), Bin(n[2], k[4], Leaf(n[3], k[2]), Leaf(n[4], k[5])))
  {
    Ranks(cmp, k);
    var o, r4 := SixElements(k), Bin(n[2], k[4], Leaf(n[3], k[2]), Nil);
    FirstThree(cmp, o, n);
    Next(cmp, o, n, 3);
    Next(cmp, o, n, 4);
    assert Insert(cmp, Leaf(n[2], k[4]), k[2], n[3]) == r4;
    assert After(cmp, o, n, 4) == Bin(n[0], k[1], Leaf(n[1], k[0]), r4);
    t := Bin(n[0], k[1], Leaf(n[1], k[0]), Bin(n[2], k[4], Leaf(n[3], k[2]), Leaf(n[4], k[5])));
    assert Insert(cmp, r4, k[5], n[4]) == t.r;
  }

  /** The first five insertions leave a balanced tree and the sixth one, of 25, ends with a
      factor of -2 at the root: its rotation is a plain one where a double one is due. */
  lemma BalanceIsLost(cmp: Comparator, k: seq<Blob>, n: seq<Node>)
    requires ThreeWay(cmp) && Sorted(cmp, k) && |k| == |n| == 6
    ensures Balanced(After(cmp, SixElements(k), n, 5)) && Factor(After(cmp, SixElements(k), n, 6)) == -2
  {
    var s := FiveInsertions(cmp, k, n);
    Ranks(cmp, k);
    Next(cmp, SixElements(k), n, 5);
    LeafFacts(n[1], k[0]);
    LeafFacts(n[3], k[2]);
    LeafFacts(n[4], k[5]);
    assert Balanced(s.r);
    var inner := Bin(n[3], k[2], Nil, Leaf(n[5], k[3]));
    assert Insert(cmp, s.r.l, k[3], n[5]) == inner;
    assert Insert(cmp, s.r, k[3], n[5]) == s.r.(l := inner);
    assert Factor(s.(r := s.r.(l := inner))) == 2 && Factor(inner) == 1;
  }

  // ---------- by a deletion ----------

  /** 50, 30, 60, 20, 40, 70, 10; `k` holds the seven elements in ascending order. */
  function SevenElements(k: seq<Blob>): seq<Blob>
    requires |k| == 7
  {
    [k[4], k[2], k[5], k[1], k[3], k[6], k[0]]
  }

  /** The tree after these insertions, none of which rotates. */
  function SevenNodes(k: seq<Blob>, n: seq<Node>): Shape
    requires |k| == |n| == 7
  {
    Bin(n[0], k[4],
        Bin(n[1], k[2], Bin(n[3], k[1], Leaf(n[6], k[0]), Nil), Leaf(n[4], k[3])),
        Bin(n[2], k[5], Nil, Leaf(n[5], k[6])))
  }

  lemma FourInsertions(cmp: Comparator, k: seq<Blob>, n: seq<Node>)
    requires ThreeWay(cmp) && Sorted(cmp, k) && |k| == |n| == 7
    ensures After(cmp, SevenElements(k), n, 4) ==
            Bin(n[0], k[4], Bin(n[1], k[2], Leaf(n[3], k[1]), Nil), Leaf(n[2], k[5]))
  {
    Ranks(cmp, k);
    var o, l := SevenElements(k), Bin(n[1], k[2], Leaf(n[3], k[1]), Nil);
    FirstThree(cmp, o, n);
    Next(cmp, o, n, 3);
    assert Insert(cmp, Leaf(n[1], k[2]), k[1], n[3]) == l;
  }

  lemma SixInsertions(cmp: Comparator, k: seq<Blob>, n: seq<Node>)
    requires ThreeWay(cmp) && Sorted(cmp, k) && |k| == |n| == 7
    ensures After(cmp, SevenElements(k), n, 6) ==
            Bin(n[0], k[4],
                Bin(n[1], k[2], Leaf(n[3], k[1]), Leaf(n[4], k[3])),
                Bin(n[2], k[5], Nil, Leaf(n[5], k[6])))
  {
    FourInsertions(cmp, k, n);
    Ranks(cmp, k);
    var o, l4 := SevenElements(k), Bin(n[1], k[2], Leaf(n[3], k[1]), Nil);
    var l5, r6 := Bin(n[1], k[2], Leaf(n[3], k[1]), Leaf(n[4], k[3])), Bin(n[2], k[5], Nil, Leaf(n[5], k[6]));
    Next(cmp, o, n, 4);
    Next(cmp, o, n, 5);
    assert Insert(cmp, l4, k[3], n[4]) == l5;
    assert After(cmp, o, n, 5) == Bin(n[0], k[4], l5, Leaf(n[2], k[5]));
    assert Insert(cmp, Leaf(n[2], k[5]), k[6], n[5]) == r6;
  }

  lemma SevenInsertions(cmp: Comparator, k: seq<Blob>, n: seq<Node>)
    requires ThreeWay(cmp) && Sorted(cmp, k) && |k| == |n| == 7
    ensures After(cmp, SevenElements(k), n, 7) == SevenNodes(k, n)
  {
    SixInsertions(cmp, k, n);
    Ranks(cmp, k);
    Next(cmp, SevenElements(k), n, 6);
    var l5 := Bin(n[1], k[2], Leaf(n[3], k[1]), Leaf(n[4], k[3]));
    assert Insert(cmp, Leaf(n[3], k[1]), k[0], n[6]) == Bin(n[3], k[1], Leaf(n[6], k[0]), Nil);
    assert Insert(cmp, l5, k[0], n[6]) == SevenNodes(k, n).l;
  }

  /** The seven insertions leave a balanced tree.  Erasing the 50 at its root takes the 40 away
      from under the 30, which then leans by -2: the walk repairs the other side. */
  lemma BalanceIsLostByDeletion(cmp: Comparator, k: seq<Blob>, n: seq<Node>)
    requires ThreeWay(cmp) && Sorted(cmp, k) && |k| == |n| == 7
    ensures var s := After(cmp, SevenElements(k), n, 7);
            var t := Delete(cmp, s, k[4], true);
            Balanced(s) && s.Bin? && s.key == k[4] && t.Bin? && Factor(t.l) == -2
  {
    SevenInsertions(cmp, k, n);
    Ranks(cmp, k);
    var s := SevenNodes(k, n);
    LeafFacts(n[6], k[0]);
    LeafFacts(n[4], k[3]);
    LeafFacts(n[5], k[6]);
    assert Height(s.l.l) == 2 && Balanced(s.l.l);
    assert Height(s.l) == 3 && Balanced(s.l) && Height(s.r) == 2 && Balanced(s.r);
    assert DeleteMax(s.l) == s.l.(r := Nil);
  }
}
