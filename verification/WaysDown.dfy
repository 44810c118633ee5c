/** What search, insertion and deletion answer in a 2-3 tree of containers/btree.c that need not
    be in order: a slip of the insertion may have taken the order away. */
module WaysDown {
  import opened Sequences
  import opened Ordering
  import opened Pairs
  import opened TwoThree
  import opened TwoThreeErase

  // ---------- the comparisons at one node (containers/btree.c:91-129, 171-214, 407-462) ----------

  /** They send `k` into child `c`: below the first pair, or above it and then below or above the
      second, which is looked at only then. */
  predicate Sends(cmp: Comparator, t: Tree, k: Blob, c: int)
    requires HasChild(t, c)
  {
    if c == 0 then cmp(k, t.p.key) < 0
    else cmp(k, t.p.key) > 0 && (t.Two? ==> if c == 1 then cmp(k, t.q.key) < 0 else cmp(k, t.q.key) > 0)
  }

  /** They stop at pair `w` of the node. */
  predicate Stops(cmp: Comparator, t: Tree, k: Blob, w: int)
    requires 0 <= w && HasChild(t, w + 1)
  {
    if w == 0 then cmp(k, t.p.key) == 0 else cmp(k, t.p.key) > 0 && cmp(k, t.q.key) == 0
  }

  lemma RouteAnswers(cmp: Comparator, t: Tree, k: Blob)
    requires IsNode(t)
    ensures forall c :: HasChild(t, c) ==> (Route(cmp, t, k) == c <==> Sends(cmp, t, k, c))
    ensures forall w :: 0 <= w && HasChild(t, w + 1) ==> (Route(cmp, t, k) == -1 - w <==> Stops(cmp, t, k, w))
  {}

  /** The comparisons lead `k` from the top to pair number `n`. */
  predicate Led(cmp: Comparator, t: Tree, k: Blob, n: int)
    decreases t
  {
    && IsNode(t)
    && (LedHere(cmp, t, k, n, 0) || (t.Two? && LedHere(cmp, t, k, n, 1))
        || (Sends(cmp, t, k, 0) && Led(cmp, Child(t, 0), k, n))
        || (Sends(cmp, t, k, 1) && Led(cmp, Child(t, 1), k, n - |Left(cmp, t, 1)|))
        || (t.Two? && Sends(cmp, t, k, 2) && Led(cmp, Child(t, 2), k, n - |Left(cmp, t, 2)|)))
  }

  predicate LedHere(cmp: Comparator, t: Tree, k: Blob, n: int, w: int)
    requires 0 <= w && HasChild(t, w + 1)
  {
    Stops(cmp, t, k, w) && n == |PairLeft(cmp, t, w)|
  }

  /** One step of the way. */
  lemma LedStep(cmp: Comparator, t: Tree, k: Blob, n: int)
    requires IsNode(t)
    ensures var i := Route(cmp, t, k);
            Led(cmp, t, k, n) <==>
              if i < 0 then n == |PairLeft(cmp, t, -1 - i)| else Led(cmp, Child(t, i), k, n - |Left(cmp, t, i)|)
  {
    RouteAnswers(cmp, t, k);
  }

  // ---------- search ----------

  /** A key below the first pair is found exactly if it is found below child 0, whatever the
      second pair is; a key above the first pair of a one-pair node exactly if below child 1; and
      so on. */
  lemma SearchFollowsComparisons(cmp: Comparator, t: Tree, k: Blob)
    requires IsNode(t)
    ensures cmp(k, t.p.key) == 0 ==> Finds(cmp, t, k)
    ensures cmp(k, t.p.key) < 0 ==> (Finds(cmp, t, k) <==> Finds(cmp, t.l, k))
    ensures cmp(k, t.p.key) > 0 && t.One? ==> (Finds(cmp, t, k) <==> Finds(cmp, t.r, k))
    ensures cmp(k, t.p.key) > 0 && t.Two? && cmp(k, t.q.key) == 0 ==> Finds(cmp, t, k)
    ensures cmp(k, t.p.key) > 0 && t.Two? && cmp(k, t.q.key) < 0 ==> (Finds(cmp, t, k) <==> Finds(cmp, t.m, k))
    ensures cmp(k, t.p.key) > 0 && t.Two? && cmp(k, t.q.key) > 0 ==> (Finds(cmp, t, k) <==> Finds(cmp, t.r, k))
  {}

  lemma NumberHere(cmp: Comparator, t: Tree, w: int)
    requires 0 <= w && HasChild(t, w + 1)
    ensures |PairLeft(cmp, t, w)| < |Flat(cmp, t)| && Flat(cmp, t)[|PairLeft(cmp, t, w)|] == PairAt(t, w)
  {
    PairAround(cmp, t, w);
  }

  lemma NumberBelow(cmp: Comparator, t: Tree, c: int, n: int)
    requires HasChild(t, c)
    ensures 0 <= n < |Flat(cmp, Child(t, c))| ==>
              var m := |Left(cmp, t, c)| + n; m < |Flat(cmp, t)| && Flat(cmp, t)[m] == Flat(cmp, Child(t, c))[n]
  {
    ChildAround(cmp, t, c);
  }

  /** Whatever the order of the tree: search finds something exactly if the comparisons lead to a
      pair, they lead to one pair at most, and that one has an equal key. */
  lemma {:induction false} SearchFindsLed(cmp: Comparator, t: Tree, k: Blob, n: int)
    ensures Led(cmp, t, k, n) <==> Finds(cmp, t, k) && n == Found(cmp, t, k)
    ensures Led(cmp, t, k, n) ==> 0 <= n < |Flat(cmp, t)| && cmp(k, Flat(cmp, t)[n].key) == 0
    decreases t
  {
    if IsNode(t) {
      var i := Route(cmp, t, k);
      LedStep(cmp, t, k, n);
      if i < 0 {
        NumberHere(cmp, t, -1 - i);
      } else {
        SearchFindsLed(cmp, Child(t, i), k, n - |Left(cmp, t, i)|);
        NumberBelow(cmp, t, i, n - |Left(cmp, t, i)|);
      }
    }
  }

  lemma LedIsFound(cmp: Comparator, t: Tree, k: Blob)
    ensures forall n: nat :: Led(cmp, t, k, n) <==> Finds(cmp, t, k) && n == Found(cmp, t, k)
    ensures Finds(cmp, t, k) ==> Led(cmp, t, k, Found(cmp, t, k)) && Found(cmp, t, k) < |Flat(cmp, t)|
  {
    forall n: nat ensures Led(cmp, t, k, n) <==> Finds(cmp, t, k) && n == Found(cmp, t, k) {
      SearchFindsLed(cmp, t, k, n);
    }
    if Finds(cmp, t, k) { SearchFindsLed(cmp, t, k, Found(cmp, t, k)); }
  }

  /** The pairs of a node and of its subtrees have numbers of their own. */
  lemma NumbersApart(cmp: Comparator, t: Tree, c: int, d: int)
    requires HasChild(t, c) && HasChild(t, d) && c < d
    ensures |Left(cmp, t, c)| + |Flat(cmp, Child(t, c))| == |PairLeft(cmp, t, c)| < |Left(cmp, t, d)|
  {}

  /** For pairs of the node itself the way is the comparison, for pairs below a child the
      comparison and the rest of the way. */
  lemma LedToPair(cmp: Comparator, t: Tree, k: Blob, w: int)
    requires 0 <= w && HasChild(t, w + 1)
    ensures Led(cmp, t, k, |PairLeft(cmp, t, w)|) <==> Stops(cmp, t, k, w)
  {
    var i, n := Route(cmp, t, k), |PairLeft(cmp, t, w)|;
    RouteAnswers(cmp, t, k);
    LedStep(cmp, t, k, n);
    if i >= 0 {
      SearchFindsLed(cmp, Child(t, i), k, n - |Left(cmp, t, i)|);
      if w < i { NumbersApart(cmp, t, w, i); }
      if i < w { NumbersApart(cmp, t, i, w); }
      NumbersApart(cmp, t, w, w + 1);
    } else {
      if w < -1 - i { NumbersApart(cmp, t, w, -1 - i); }
      if -1 - i < w { NumbersApart(cmp, t, -1 - i, w); }
    }
  }

  lemma LedIntoChild(cmp: Comparator, t: Tree, k: Blob, c: int, n: nat)
    requires HasChild(t, c) && n < |Flat(cmp, Child(t, c))|
    ensures Led(cmp, t, k, |Left(cmp, t, c)| + n) <==> Sends(cmp, t, k, c) && Led(cmp, Child(t, c), k, n)
  {
    var i, m := Route(cmp, t, k), |Left(cmp, t, c)| + n;
    RouteAnswers(cmp, t, k);
    LedStep(cmp, t, k, m);
    if i >= 0 {
      SearchFindsLed(cmp, Child(t, i), k, m - |Left(cmp, t, i)|);
      if c < i { NumbersApart(cmp, t, c, i); }
      if i < c { NumbersApart(cmp, t, i, c); }
    } else {
      if -1 - i < c { NumbersApart(cmp, t, -1 - i, c); }
      if c < -1 - i { NumbersApart(cmp, t, c, -1 - i); }
    }
  }

  // ---------- insertion ----------

  /** Pair number `n` is in a leaf with two pairs. */
  predicate InFullLeaf(cmp: Comparator, t: Tree, n: int)
    decreases t
  {
    && IsNode(t)
    && if IsLeaf(t) then t.Two? && 0 <= n < 2
       else
         || InFullLeaf(cmp, Child(t, 0), n)
         || InFullLeaf(cmp, Child(t, 1), n - |Left(cmp, t, 1)|)
         || (t.Two? && InFullLeaf(cmp, Child(t, 2), n - |Left(cmp, t, 2)|))
  }

  lemma {:induction false} InFullLeafRange(cmp: Comparator, t: Tree, n: int)
    ensures InFullLeaf(cmp, t, n) ==> 0 <= n < |Flat(cmp, t)|
    decreases t
  {
    if IsNode(t) && !IsLeaf(t) {
      InFullLeafRange(cmp, Child(t, 0), n);
      InFullLeafRange(cmp, Child(t, 1), n - |Left(cmp, t, 1)|);
      if t.Two? { InFullLeafRange(cmp, Child(t, 2), n - |Left(cmp, t, 2)|); }
    }
  }

  /** A pair below child `i` is in a full leaf of that child, or of none; a pair of an inner node
      is in no leaf. */
  lemma InFullLeafBelow(cmp: Comparator, t: Tree, i: int, n: int)
    requires IsNode(t) && !IsLeaf(t) && HasChild(t, i)
    ensures 0 <= n < |Flat(cmp, Child(t, i))| ==>
              (InFullLeaf(cmp, t, n + |Left(cmp, t, i)|) <==> InFullLeaf(cmp, Child(t, i), n))
    ensures i > 0 ==> !InFullLeaf(cmp, t, |PairLeft(cmp, t, i - 1)|)
  {
    var m := n + |Left(cmp, t, i)|;
    Ranges(cmp, t, m);
    if i > 0 { Ranges(cmp, t, |PairLeft(cmp, t, i - 1)|); }
  }

  lemma Ranges(cmp: Comparator, t: Tree, n: int)
    requires IsNode(t) && !IsLeaf(t)
    ensures InFullLeaf(cmp, t, n) <==>
            || (0 <= n < |Flat(cmp, t.l)| && InFullLeaf(cmp, t.l, n))
            || (|Left(cmp, t, 1)| <= n < |Left(cmp, t, 1)| + |Flat(cmp, Child(t, 1))|
                && InFullLeaf(cmp, Child(t, 1), n - |Left(cmp, t, 1)|))
            || (t.Two? && |Left(cmp, t, 2)| <= n && InFullLeaf(cmp, Child(t, 2), n - |Left(cmp, t, 2)|))
  {
    InFullLeafRange(cmp, t.l, n);
    InFullLeafRange(cmp, Child(t, 1), n - |Left(cmp, t, 1)|);
    if t.Two? { InFullLeafRange(cmp, Child(t, 2), n - |Left(cmp, t, 2)|); }
  }

  /** The comparisons lead to a pair that is not in a full leaf. */
  ghost predicate Refuses(cmp: Comparator, t: Tree, k: Blob) {
    exists n: nat :: Led(cmp, t, k, n) && !InFullLeaf(cmp, t, n)
  }

  lemma RefusesFound(cmp: Comparator, t: Tree, k: Blob)
    ensures Refuses(cmp, t, k) <==> Finds(cmp, t, k) && !InFullLeaf(cmp, t, Found(cmp, t, k))
  {
    LedIsFound(cmp, t, k);
  }

  lemma RefusesBelow(cmp: Comparator, t: Tree, k: Blob)
    requires IsNode(t) && !IsLeaf(t)
    ensures var i := Route(cmp, t, k); Refuses(cmp, t, k) <==> i < 0 || Refuses(cmp, Child(t, i), k)
  {
    var i := Route(cmp, t, k);
    RefusesFound(cmp, t, k);
    if i < 0 {
      InFullLeafBelow(cmp, t, -i, 0);
    } else {
      RefusesFound(cmp, Child(t, i), k);
      if Finds(cmp, Child(t, i), k) {
        SearchFindsLed(cmp, Child(t, i), k, Found(cmp, Child(t, i), k));
        InFullLeafBelow(cmp, t, i, Found(cmp, Child(t, i), k));
      }
    }
  }

  /** Whatever the order of the tree: insertion refuses a pair exactly if the comparisons lead its
      key to a pair that is not in a full leaf. */
  lemma {:induction false} InsertionRefusesExactly(cmp: Comparator, t: Tree, x: Pair, h: nat)
    requires Full(t, h)
    ensures Insert(cmp, t, x, false).status == -1 <==> Refuses(cmp, t, x.key)
    decreases t
  {
    if IsLeaf(t) {
      RefusesFound(cmp, t, x.key);
    } else if IsNode(t) {
      var i := Route(cmp, t, x.key);
      RefusesBelow(cmp, t, x.key);
      if i >= 0 {
        FullChild(t, h, i, Child(t, i));
        InsertKeepsShape(cmp, Child(t, i), x, false, h - 1);
        InsertionRefusesExactly(cmp, Child(t, i), x, h - 1);
      }
    }
  }

  // ---------- where a pair lands that splits nothing ----------

  /** The comparisons lead `k` between two pairs, with `g` pairs to the left. */
  predicate LedBetween(cmp: Comparator, t: Tree, k: Blob, g: int)
    decreases t
  {
    if !IsNode(t) then g == 0
    else
      || (Sends(cmp, t, k, 0) && LedBetween(cmp, Child(t, 0), k, g))
      || (Sends(cmp, t, k, 1) && LedBetween(cmp, Child(t, 1), k, g - |Left(cmp, t, 1)|))
      || (t.Two? && Sends(cmp, t, k, 2) && LedBetween(cmp, Child(t, 2), k, g - |Left(cmp, t, 2)|))
  }

  /** The way down ends in a leaf with a free slot. */
  predicate EndsInFreeLeaf(cmp: Comparator, t: Tree, k: Blob)
    decreases t
  {
    && IsNode(t) && Route(cmp, t, k) >= 0
    && if IsLeaf(t) then t.One? else EndsInFreeLeaf(cmp, Child(t, Route(cmp, t, k)), k)
  }

  lemma LandsInLeaf(cmp: Comparator, t: Tree, x: Pair) returns (g: nat)
    requires IsLeaf(t) && t.One? && Route(cmp, t, x.key) >= 0
    ensures g <= |Flat(cmp, t)| && LedBetween(cmp, t, x.key, g)
    ensures var o := Insert(cmp, t, x, false); o.status == 0 && Flat(cmp, o.tree) == Inserted(Flat(cmp, t), g, x)
  {
    g := if Route(cmp, t, x.key) == 0 then 0 else 1;
    RouteAnswers(cmp, t, x.key);
    assert Flat(cmp, t) == [t.p];
    assert Flat(cmp, Insert(cmp, t, x, false).tree) == if g == 0 then [x, t.p] else [t.p, x];
  }

  lemma LedBetweenStep(cmp: Comparator, t: Tree, k: Blob, g: int)
    requires IsNode(t) && Route(cmp, t, k) >= 0
    ensures var i := Route(cmp, t, k);
            LedBetween(cmp, t, k, g) <==> LedBetween(cmp, Child(t, i), k, g - |Left(cmp, t, i)|)
  {
    RouteAnswers(cmp, t, k);
  }

  /** The pair is in gap `g` of the sequence of pairs. */
  predicate Landed(cmp: Comparator, t: Tree, x: Pair, o: Outcome, g: nat) {
    o.status == 0 && g <= |Flat(cmp, t)| && Flat(cmp, o.tree) == Inserted(Flat(cmp, t), g, x)
  }

  lemma LandedBelow(cmp: Comparator, t: Tree, i: int, x: Pair, o: Outcome, g: nat)
    requires HasChild(t, i) && Landed(cmp, Child(t, i), x, o, g)
    ensures Landed(cmp, t, x, Outcome(0, WithChild(t, i, o.tree)), |Left(cmp, t, i)| + g)
  {
    var a, c, b := Left(cmp, t, i), Flat(cmp, Child(t, i)), Right(cmp, t, i);
    ChildAround(cmp, t, i);
    FlatAround(cmp, t, i, o.tree);
    InsertedInside(a, c, b, g, x);
  }

  /** Whatever the order of the tree: the pair lands where the comparisons lead, and everything
      else stays in its place. */
  lemma {:induction false} LandsWhereLed(cmp: Comparator, t: Tree, x: Pair) returns (g: nat)
    requires EndsInFreeLeaf(cmp, t, x.key)
    ensures LedBetween(cmp, t, x.key, g) && Landed(cmp, t, x, Insert(cmp, t, x, false), g)
    decreases t
  {
    if IsLeaf(t) {
      g := LandsInLeaf(cmp, t, x);
    } else {
      var i := Route(cmp, t, x.key);
      var o := Insert(cmp, Child(t, i), x, false);
      var below := LandsWhereLed(cmp, Child(t, i), x);
      g := |Left(cmp, t, i)| + below;
      LandedBelow(cmp, t, i, x, o, below);
      LedBetweenStep(cmp, t, x.key, g);
      assert Insert(cmp, t, x, false) == Outcome(0, WithChild(t, i, o.tree));
    }
  }

  lemma InsertedInside<T>(a: seq<T>, c: seq<T>, b: seq<T>, g: nat, x: T)
    requires g <= |c|
    ensures Inserted(a + c + b, |a| + g, x) == a + Inserted(c, g, x) + b
  {}

  /** Insertion below a child of an inner node: the node changes only if the child has split, and
      then takes the halves into a free slot -- those of child 0 the wrong way round -- or parks
      the promoted pair and the left half. */
  lemma InsertionBelow(cmp: Comparator, t: Tree, x: Pair, c: int, h: nat)
    requires Full(t, h) && HasChild(t, c) && !IsLeaf(t) && Sends(cmp, t, x.key, c)
    ensures var (o, u) := (Insert(cmp, Child(t, c), x, false), Insert(cmp, t, x, false));
            if o.status != 1 then u == Outcome(o.status, WithChild(t, c, o.tree))
            else
              && o.tree.Over?
              && var v := SplitUp(cmp, o.tree);
                 if t.Two? then
                   var w := WithChild(t, c, v.right);
                   u == Outcome(1, Over(t.p, t.q, w.l, w.m, w.r, v.mid, v.left))
                 else
                   u == Outcome(0, if c == 1 then Two(t.p, v.mid, t.l, v.left, v.right)
                                   else Two(t.p, v.mid, v.right, v.left, t.r))
  {
    RouteAnswers(cmp, t, x.key);
    InsertStep(cmp, t, x, false, h);
  }

  // ---------- deletion ----------

  /** Refused if the comparisons lead to no pair, otherwise exactly that pair goes. */
  ghost predicate TakesLed(cmp: Comparator, t: Tree, k: Blob, o: Outcome) {
    && (o.status == -1 <==> forall n: nat :: !Led(cmp, t, k, n))
    && (forall n: nat :: Led(cmp, t, k, n) ==>
          o.status >= 0 && n < |Flat(cmp, t)| && Flat(cmp, o.tree) == Removed(Flat(cmp, t), n))
  }

  /** Whatever the order of the tree: deletion takes out the pair that the comparisons lead to,
      with everything else in its place, and refuses if they lead to none. */
  lemma DeletionTakesLed(cmp: Comparator, t: Tree, k: Blob, h: nat)
    requires Full(t, h)
    ensures TakesLed(cmp, t, k, Erase(cmp, t, k)) && TakesLed(cmp, t, k, EraseRoot(cmp, t, k))
  {
    var j := EraseTakesOne(cmp, t, k, h);
    LedIsFound(cmp, t, k);
  }

  /** What a node becomes when its child `i` has become `o.tree`: nothing else changes unless the
      child has lost its last pair. */
  ghost predicate Becomes(t: Tree, i: int, o: Outcome, u: Outcome) {
    && HasChild(t, i) && HasChild(WithChild(t, i, o.tree), i)
    && if o.status == 1 then Mended(WithChild(t, i, o.tree), i, u)
       else u == Outcome(o.status, WithChild(t, i, o.tree))
  }

  lemma SettleBecomes(t: Tree, i: int, o: Outcome, h: nat)
    requires Full(t, h) && HasChild(t, i) && EraseResult(Child(t, i), o, h - 1) && (o.status == 1 ==> h > 1)
    ensures Becomes(t, i, o, Settle(t, i, o))
  {
    if o.status == 1 {
      SettleIsRepair(t, i, o, h);
      RepairAsksRightFirst(WithChild(t, i, o.tree), i, h);
    }
  }

  lemma MinimumAtNode(t: Tree, h: nat)
    requires Full(t, h) && IsNode(t)
    ensures if IsLeaf(t) then EraseMin(t) == if t.One? then Outcome(1, Under(Nil)) else Outcome(0, One(t.q, Nil, Nil))
            else Becomes(t, 0, EraseMin(t.l), EraseMin(t))
  {
    if !IsLeaf(t) {
      EraseMinStep(t, 0, h);
      SettleBecomes(t, 0, EraseMin(t.l), h);
    }
  }

  /** Deletion below a child, at every node of the way. */
  lemma DeletionBelow(cmp: Comparator, t: Tree, k: Blob, c: int, h: nat)
    requires Full(t, h) && HasChild(t, c) && Sends(cmp, t, k, c)
    ensures Becomes(t, c, Erase(cmp, Child(t, c), k), Erase(cmp, t, k))
  {
    RouteAnswers(cmp, t, k);
    EraseStep(cmp, t, k, h);
    SettleBecomes(t, c, Erase(cmp, Child(t, c), k), h);
  }

  /** Deletion of a pair of the node itself: the first pair of the child to its right takes its
      place, and that child becomes what it is without its first pair. */
  lemma DeletionHere(cmp: Comparator, t: Tree, k: Blob, w: int, h: nat)
    requires Full(t, h) && 0 <= w && HasChild(t, w + 1) && Stops(cmp, t, k, w)
    ensures var c := Child(t, w + 1);
            if IsLeaf(t) then
              Erase(cmp, t, k) == if t.One? then Outcome(1, Under(Nil)) else Outcome(0, One(PairAt(t, 1 - w), Nil, Nil))
            else
              && Flat(cmp, c) != [] && IsNode(c)
              && Becomes(WithPair(t, w, Flat(cmp, c)[0]), w + 1, EraseMin(c), Erase(cmp, t, k))
  {
    RouteAnswers(cmp, t, k);
    if IsLeaf(t) {
      MinimumAtNode(t, h);
    } else {
      var c := Child(t, w + 1);
      FullChild(t, h, w + 1, c);
      EraseMinStep(t, w + 1, h);
      EraseMinRemoves(cmp, c, h - 1);
      var u := WithPair(t, w, MinPair(c));
      WithPairFull(t, w, MinPair(c), h);
      SettleBecomes(u, w + 1, EraseMin(c), h);
    }
  }

  lemma WithPairFull(t: Tree, w: int, x: Pair, h: nat)
    requires Full(t, h) && 0 <= w && HasChild(t, w + 1)
    ensures Full(WithPair(t, w, x), h)
    ensures HasChild(WithPair(t, w, x), w + 1) && Child(WithPair(t, w, x), w + 1) == Child(t, w + 1)
  {}
}
