/** Runs of insertions and deletions on the search tree of containers/AVLTree.c. */
module AvlRuns {
  import opened Sequences
  import opened Ordering
  import opened AvlShape
  import opened AvlDeletion
  import opened Balance

  /** Inserts an element into a node of its own, or deletes an element. */
  datatype Op = Put(key: Blob, node: Node) | Drop(key: Blob)

  function Apply(cmp: Comparator, s: Shape, op: Op): Shape {
    match op
    case Put(k, n) => if Find(cmp, s, k) == null then Insert(cmp, s, k, n) else s
    case Drop(k) => if Find(cmp, s, k) == null then s else Delete(cmp, s, k, true)
  }

  function Run(cmp: Comparator, s: Shape, ops: seq<Op>): Shape
    decreases |ops|
  {
    if ops == [] then s else Run(cmp, Apply(cmp, s, ops[0]), ops[1..])
  }

  /** Every insertion brings a node that is not in the tree at that time. */
  predicate NewNodes(cmp: Comparator, s: Shape, ops: seq<Op>)
    decreases |ops|
  {
    ops != [] ==>
      && (ops[0].Put? ==> ops[0].node !in Repr(s))
      && NewNodes(cmp, Apply(cmp, s, ops[0]), ops[1..])
  }

  /** What the run should do to the ascending sequence of elements; an element that equals `k`
      is the last one before the place where `k` belongs. */
  ghost function Intended(cmp: Comparator, s: seq<Blob>, ops: seq<Op>): seq<Blob>
    decreases |ops|
  {
    if ops == [] then s
    else
      var t := match ops[0]
               case Put(k, _) => if Has(cmp, s, k) then s else Placed(cmp, s, k)
               case Drop(k) =>
                 var i := Slot(cmp, s, k);
                 if Has(cmp, s, k) && i > 0 then Removed(s, i - 1) else s;
      Intended(cmp, t, ops[1..])
  }

  lemma EqualIsBeforeSlot(cmp: Comparator, s: seq<Blob>, k: Blob, i: nat)
    requires ThreeWay(cmp) && Sorted(cmp, s) && i < |s| && cmp(k, s[i]) == 0
    ensures Slot(cmp, s, k) == i + 1
  {
    var j := Slot(cmp, s, k);
    SlotSplits(cmp, s, k);
    Mirror(cmp, k, s[i]);
    if i + 1 < j { Below(cmp, s[i], s[j - 1], k); }
  }

  /** A deletion that finds its element takes out the last one before the place of the key. */
  lemma DropIsRight(cmp: Comparator, s: Shape, k: Blob)
    requires ThreeWay(cmp) && Sorted(cmp, Keys(s)) && Distinct(s) && Find(cmp, s, k) != null
    ensures var (t, i) := (Delete(cmp, s, k, true), Slot(cmp, Keys(s), k));
            && Has(cmp, Keys(s), k) && 0 < i <= |Keys(s)| && Keys(t) == Removed(Keys(s), i - 1)
            && Sorted(cmp, Keys(t)) && Distinct(t)
  {
    FindIsComplete(cmp, s, k);
    PositionFinds(cmp, s, k);
    EqualIsBeforeSlot(cmp, Keys(s), k, Position(cmp, s, k));
    DeleteKeepsOrder(cmp, s, k, true);
  }

  lemma PutIsRight(cmp: Comparator, s: Shape, k: Blob, n: Node)
    requires ThreeWay(cmp) && Sorted(cmp, Keys(s)) && Distinct(s) && Find(cmp, s, k) == null && n !in Repr(s)
    ensures var t := Insert(cmp, s, k, n);
            !Has(cmp, Keys(s), k) && Keys(t) == Placed(cmp, Keys(s), k) && Sorted(cmp, Keys(t)) && Distinct(t)
  {
    FindIsComplete(cmp, s, k);
    InsertKeepsOrder(cmp, s, k, n);
  }

  /** Whatever the run and however unbalanced the tree becomes, it stays a search tree without
      repeated nodes that holds exactly the elements that it should. */
  lemma {:induction false} RunsAreRight(cmp: Comparator, s: Shape, ops: seq<Op>)
    requires ThreeWay(cmp) && Sorted(cmp, Keys(s)) && Distinct(s) && NewNodes(cmp, s, ops)
    ensures var t := Run(cmp, s, ops);
            Sorted(cmp, Keys(t)) && Distinct(t) && Keys(t) == Intended(cmp, Keys(s), ops)
    decreases |ops|
  {
    if ops != [] {
      var k := ops[0].key;
      FindIsComplete(cmp, s, k);
      if Find(cmp, s, k) != null {
        DropIsRight(cmp, s, k);
      } else if ops[0].Put? {
        PutIsRight(cmp, s, k, ops[0].node);
      }
      RunsAreRight(cmp, Apply(cmp, s, ops[0]), ops[1..]);
    }
  }

  // ---------- balance over a run ----------

  /** The operation keeps a balanced tree balanced. */
  predicate Safe(cmp: Comparator, s: Shape, op: Op) {
    match op
    case Put(k, _) => Find(cmp, s, k) == null ==> Judge(cmp, s, k).Keeps?
    case Drop(k) => Find(cmp, s, k) != null ==> SafeDelete(cmp, s, k)
  }

  /** Every operation of the run is safe when its turn comes. */
  predicate Steady(cmp: Comparator, s: Shape, ops: seq<Op>)
    decreases |ops|
  {
    ops != [] ==> Safe(cmp, s, ops[0]) && Steady(cmp, Apply(cmp, s, ops[0]), ops[1..])
  }

  /** Every tree of the run is balanced. */
  predicate AllBalanced(cmp: Comparator, s: Shape, ops: seq<Op>)
    decreases |ops|
  {
    Balanced(s) && (ops != [] ==> AllBalanced(cmp, Apply(cmp, s, ops[0]), ops[1..]))
  }

  /** A run that starts from a balanced tree keeps it balanced all along exactly when every
      operation is safe. */
  lemma {:induction false} RunsBalanceExactly(cmp: Comparator, s: Shape, ops: seq<Op>)
    requires Balanced(s)
    ensures AllBalanced(cmp, s, ops) <==> Steady(cmp, s, ops)
    decreases |ops|
  {
    if ops != [] {
      var t := Apply(cmp, s, ops[0]);
      match ops[0] {
        case Put(k, n) => InsertBalancesExactly(cmp, s, k, n);
        case Drop(k) => DeleteBalancesExactly(cmp, s, k, true);
      }
      if Balanced(t) { RunsBalanceExactly(cmp, t, ops[1..]); }
    }
  }
}
