/** Ascending insertion keeps the search tree balanced. */
module AscendingInsertion {
  import opened Words
  import opened Ordering
  import opened AvlShape
  import opened Balance

  /** All leaves at the same depth, no node with one child. */
  predicate Perfect(s: Shape) {
    s.Bin? ==> Height(s.l) == Height(s.r) && Perfect(s.l) && Perfect(s.r)
  }

  /** Down the right spine every left subtree is perfect and every factor is 0 or 1. */
  predicate RightLeaning(s: Shape) {
    s.Bin? ==> 0 <= Factor(s) <= 1 && Perfect(s.l) && RightLeaning(s.r)
  }

  lemma {:induction false} PerfectIsBalanced(s: Shape)
    requires Perfect(s)
    ensures Balanced(s)
  {
    if s.Bin? {
      PerfectIsBalanced(s.l);
      PerfectIsBalanced(s.r);
    }
  }

  lemma {:induction false} PerfectSize(s: Shape)
    requires Perfect(s)
    ensures |Keys(s)| == Power2(Height(s)) - 1
  {
    if s.Bin? {
      PerfectSize(s.l);
      PerfectSize(s.r);
    }
  }

  lemma {:induction false} RightLeaningIsBalanced(s: Shape)
    requires RightLeaning(s)
    ensures Balanced(s)
  {
    if s.Bin? {
      PerfectIsBalanced(s.l);
      RightLeaningIsBalanced(s.r);
    }
  }

  /** Right-leaning trees are at most logarithmically high. */
  lemma {:induction false} RightLeaningSize(s: Shape)
    requires RightLeaning(s) && s.Bin?
    ensures |Keys(s)| >= Power2(Height(s) - 1)
  {
    PerfectSize(s.l);
    if Factor(s) == 1 {
      RightLeaningSize(s.r);
    }
  }

  /** An element above all others goes to the right, all the way down. */
  lemma BelowAll(cmp: Comparator, s: Shape, k: Blob)
    requires ThreeWay(cmp) && s.Bin? && AllBelow(cmp, Keys(s), k)
    ensures cmp(k, s.key) > 0 && AllBelow(cmp, Keys(s.r), k)
  {
    assert s.key == Keys(s)[|Keys(s.l)|];
    Mirror(cmp, s.key, k);
    var (q, d) := (Keys(s), |Keys(s.l)| + 1);
    assert q[d..] == Keys(s.r);
    forall i | 0 <= i < |Keys(s.r)| ensures cmp(Keys(s.r)[i], k) < 0 {
      assert q[d..][i] == q[d + i];
    }
  }

  /** What grows on the right of a right-leaning tree ... */
  predicate GrownRight(s: Shape, t: Shape) {
    && RightLeaning(t) && t.Bin? && Height(s) <= Height(t) <= Height(s) + 1
    && (s.Bin? && Height(t) == Height(s) + 1 ==> Factor(t) == 1)
  }

  /** ... is repaired by a rotation that leaves a perfect left subtree. */
  lemma GrownRightBelow(s: Shape, r: Shape)
    requires RightLeaning(s) && s.Bin? && GrownRight(s.r, r)
    ensures GrownRight(s, RightBalance(s.(r := r)))
  {
    if Height(r) == Height(s.l) + 2 {
      assert Factor(r) == 1 && r.r.Bin? && Factor(r.l) == 0;
      assert Perfect(s.(r := r.l));
    }
  }

  /** Inserting above everything keeps the tree right-leaning; when a non-empty tree grows
      in height it leans to the right at the top, which is what makes the next rotation
      leave a perfect left subtree. */
  lemma {:induction false} InsertAtRightEnd(cmp: Comparator, s: Shape, k: Blob, n: Node)
    requires ThreeWay(cmp) && AllBelow(cmp, Keys(s), k) && RightLeaning(s)
    ensures GrownRight(s, Insert(cmp, s, k, n))
  {
    if s.Nil? {
      assert Perfect(Nil) && RightLeaning(Nil);
    } else {
      BelowAll(cmp, s, k);
      InsertAtRightEnd(cmp, s.r, k, n);
      GrownRightBelow(s, Insert(cmp, s.r, k, n));
    }
  }

  /** Inserting `ks` one after the other, each into its own new node. */
  function InsertAll(cmp: Comparator, s: Shape, ks: seq<Blob>, ns: seq<Node>): Shape
    requires |ks| == |ns|
    decreases |ks|
  {
    if ks == [] then s else InsertAll(cmp, Insert(cmp, s, ks[0], ns[0]), ks[1..], ns[1..])
  }

  lemma {:induction false} AscendingRun(cmp: Comparator, s: Shape, ks: seq<Blob>, ns: seq<Node>)
    requires ThreeWay(cmp) && |ks| == |ns| && RightLeaning(s) && Sorted(cmp, Keys(s) + ks)
    ensures RightLeaning(InsertAll(cmp, s, ks, ns))
    ensures Keys(InsertAll(cmp, s, ks, ns)) == Keys(s) + ks
    decreases |ks|
  {
    if ks == [] {
      assert Keys(s) + ks == Keys(s);
    } else {
      var q := Keys(s) + ks;
      assert q == Keys(s) + [ks[0]] + ks[1..];
      SortedAround(cmp, Keys(s), ks[0], ks[1..]);
      InsertAtRightEnd(cmp, s, ks[0], ns[0]);
      PlacedAtEnd(cmp, Keys(s), ks[0]);
      InsertFillsGap(cmp, s, ks[0], ns[0]);
      GapIsSlot(cmp, s, ks[0]);
      AscendingRun(cmp, Insert(cmp, s, ks[0], ns[0]), ks[1..], ns[1..]);
    }
  }

  /** Balanced, logarithmically high, and with the elements `q`. */
  predicate Holds(s: Shape, q: seq<Blob>) {
    RightLeaning(s) && Balanced(s) && Keys(s) == q && (s.Bin? ==> |q| >= Power2(Height(s) - 1))
  }

  lemma RightLeaningHolds(s: Shape, q: seq<Blob>)
    requires RightLeaning(s) && Keys(s) == q
    ensures Holds(s, q)
  {
    RightLeaningIsBalanced(s);
    if s.Bin? { RightLeaningSize(s); }
  }

  /** Ascending insertion, starting from the empty tree or from any right-leaning one, keeps
      every factor in {0, 1} and the height logarithmic in the number of elements. */
  lemma AscendingInsertionBalances(cmp: Comparator, s: Shape, ks: seq<Blob>, ns: seq<Node>)
    requires ThreeWay(cmp) && |ks| == |ns| && RightLeaning(s) && Sorted(cmp, Keys(s) + ks)
    ensures Holds(InsertAll(cmp, s, ks, ns), Keys(s) + ks)
  {
    AscendingRun(cmp, s, ks, ns);
    RightLeaningHolds(InsertAll(cmp, s, ks, ns), Keys(s) + ks);
  }
}
