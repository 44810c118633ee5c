/** The 2-3 tree of containers/btree.c as a value: nodes with one or two pairs, nodes that
    are overfull for a moment (a pair and a child parked in `extrakv` and `extrachild`), and
    nodes that have lost their last pair for a moment (one subtree left in `childs[0]`). */
module TwoThree {
  import opened Ordering
  import opened Pairs

  datatype Tree =
    | Nil
    | One(p: Pair, l: Tree, r: Tree)
    | Two(p: Pair, q: Pair, l: Tree, m: Tree, r: Tree)
    | Over(p: Pair, q: Pair, l: Tree, m: Tree, r: Tree, x: Pair, xc: Tree)
    | Under(c: Tree)

  /** -1: refused or absent; 0: done; 1: the caller has to repair the node. */
  datatype Outcome = Outcome(status: int, tree: Tree)

  /** A proper 2-3 tree: every node has one or two pairs and every leaf is at depth `h`. */
  predicate Full(t: Tree, h: nat) {
    match t
    case Nil => h == 0
    case One(_, l, r) => h > 0 && Full(l, h - 1) && Full(r, h - 1)
    case Two(_, _, l, m, r) => h > 0 && Full(l, h - 1) && Full(m, h - 1) && Full(r, h - 1)
    case _ => false
  }

  /** An overfull node over proper subtrees. */
  predicate Overfull(t: Tree, h: nat) {
    t.Over? && h > 0 && Full(t.l, h - 1) && Full(t.m, h - 1) && Full(t.r, h - 1) && Full(t.xc, h - 1)
  }

  /** A node without pairs over one proper subtree. */
  predicate Underfull(t: Tree, h: nat) {
    t.Under? && h > 0 && Full(t.c, h - 1)
  }

  /** The pairs from left to right; the parked pair of an overfull node stands where its key
      puts it, its child to its left. */
  function Flat(cmp: Comparator, t: Tree): seq<Pair> {
    match t
    case Nil => []
    case One(p, l, r) => Flat(cmp, l) + [p] + Flat(cmp, r)
    case Two(p, q, l, m, r) => Flat(cmp, l) + [p] + Flat(cmp, m) + [q] + Flat(cmp, r)
    case Over(p, q, l, m, r, x, xc) =>
      var (fl, fm, fr, fx) := (Flat(cmp, l), Flat(cmp, m), Flat(cmp, r), Flat(cmp, xc));
      if cmp(x.key, p.key) < 0 then fx + [x] + fl + [p] + fm + [q] + fr
      else if cmp(x.key, q.key) < 0 then fl + [p] + fx + [x] + fm + [q] + fr
      else fl + [p] + fm + [q] + fx + [x] + fr
    case Under(c) => Flat(cmp, c)
  }

  predicate IsNode(t: Tree) {
    t.One? || t.Two?
  }

  predicate IsLeaf(t: Tree) {
    match t
    case One(_, l, r) => l.Nil? && r.Nil?
    case Two(_, _, l, m, r) => l.Nil? && m.Nil? && r.Nil?
    case _ => false
  }

  // ---------- a node around one of its children ----------

  predicate HasChild(t: Tree, i: int) {
    (t.One? && 0 <= i <= 1) || (t.Two? && 0 <= i <= 2)
  }

  function Child(t: Tree, i: int): (c: Tree)
    requires HasChild(t, i)
    ensures c < t
  {
    if i == 0 then t.l else if t.Two? && i == 1 then t.m else t.r
  }

  function WithChild(t: Tree, i: int, c: Tree): Tree
    requires HasChild(t, i)
  {
    match t
    case One(p, l, r) => if i == 0 then One(p, c, r) else One(p, l, c)
    case Two(p, q, l, m, r) =>
      if i == 0 then Two(p, q, c, m, r) else if i == 1 then Two(p, q, l, c, r) else Two(p, q, l, m, c)
  }

  /** The pairs of `t` to the left of its child `i`. */
  function Left(cmp: Comparator, t: Tree, i: int): seq<Pair>
    requires HasChild(t, i)
  {
    if i == 0 then []
    else if i == 1 then Flat(cmp, t.l) + [t.p]
    else Flat(cmp, t.l) + [t.p] + Flat(cmp, t.m) + [t.q]
  }

  function Right(cmp: Comparator, t: Tree, i: int): seq<Pair>
    requires HasChild(t, i)
  {
    match t
    case One(p, l, r) => if i == 0 then [p] + Flat(cmp, r) else []
    case Two(p, q, l, m, r) =>
      if i == 0 then [p] + Flat(cmp, m) + [q] + Flat(cmp, r) else if i == 1 then [q] + Flat(cmp, r) else []
  }

  /** The five parts of a two-pair node, seen from each of its children. */
  lemma Regroup<T>(a: seq<T>, p: T, b: seq<T>, q: T, c: seq<T>)
    ensures a + [p] + b + [q] + c == [] + a + ([p] + b + [q] + c)
    ensures a + [p] + b + [q] + c == a + [p] + b + ([q] + c)
    ensures a + [p] + b + [q] + c == a + [p] + b + [q] + c + []
  {}

  lemma FlatAroundTwo(cmp: Comparator, t: Tree, i: int, c: Tree)
    requires t.Two? && HasChild(t, i)
    ensures Flat(cmp, WithChild(t, i, c)) == Left(cmp, t, i) + Flat(cmp, c) + Right(cmp, t, i)
  {
    var u := WithChild(t, i, c);
    Regroup(Flat(cmp, u.l), u.p, Flat(cmp, u.m), u.q, Flat(cmp, u.r));
  }

  lemma FlatAround(cmp: Comparator, t: Tree, i: int, c: Tree)
    requires HasChild(t, i)
    ensures Flat(cmp, WithChild(t, i, c)) == Left(cmp, t, i) + Flat(cmp, c) + Right(cmp, t, i)
  {
    if t.Two? {
      FlatAroundTwo(cmp, t, i, c);
    } else if i == 0 {
      assert Flat(cmp, c) + [t.p] + Flat(cmp, t.r) == Flat(cmp, c) + ([t.p] + Flat(cmp, t.r));
    }
  }

  lemma ChildAround(cmp: Comparator, t: Tree, i: int)
    requires HasChild(t, i)
    ensures WithChild(t, i, Child(t, i)) == t
    ensures Flat(cmp, t) == Left(cmp, t, i) + Flat(cmp, Child(t, i)) + Right(cmp, t, i)
  {
    FlatAround(cmp, t, i, Child(t, i));
  }

  // ---------- descending (containers/btree.c:84-132) ----------

  /** What the comparisons at a node say about `k`: it is the first pair's key (-1), the
      second's (-2), or it belongs into a child. */
  function Route(cmp: Comparator, t: Tree, k: Blob): (i: int)
    requires IsNode(t)
    ensures HasChild(t, i) || i == -1 || (i == -2 && t.Two?)
  {
    var c := cmp(k, t.p.key);
    if c == 0 then -1
    else if c < 0 then 0
    else if t.One? then 1
    else
      var d := cmp(k, t.q.key);
      if d == 0 then -2 else if d < 0 then 1 else 2
  }

  lemma NodeInOrder(cmp: Comparator, t: Tree)
    requires ThreeWay(cmp) && IsNode(t) && InOrder(cmp, Flat(cmp, t))
    ensures Lower(cmp, Flat(cmp, t.l), t.p.key)
    ensures t.One? ==>
              && InOrder(cmp, Flat(cmp, t.l)) && InOrder(cmp, Flat(cmp, t.r))
              && Upper(cmp, t.p.key, Flat(cmp, t.r))
    ensures t.Two? ==>
              && Upper(cmp, t.p.key, Flat(cmp, t.m)) && Lower(cmp, Flat(cmp, t.m), t.q.key)
              && Upper(cmp, t.q.key, Flat(cmp, t.r)) && cmp(t.p.key, t.q.key) < 0
              && Lower(cmp, Flat(cmp, t.l) + [t.p] + Flat(cmp, t.m), t.q.key)
  {
    if t.One? {
      InOrderAround(cmp, Flat(cmp, t.l), t.p, Flat(cmp, t.r));
    } else {
      var a := Flat(cmp, t.l) + [t.p] + Flat(cmp, t.m);
      InOrderAround(cmp, a, t.q, Flat(cmp, t.r));
      InOrderAround(cmp, Flat(cmp, t.l), t.p, Flat(cmp, t.m));
      assert KeysOf(a)[|Flat(cmp, t.l)|] == t.p.key;
      forall i | 0 <= i < |Flat(cmp, t.m)| ensures cmp(KeysOf(Flat(cmp, t.m))[i], t.q.key) < 0 {
        assert KeysOf(a)[|Flat(cmp, t.l)| + 1 + i] == KeysOf(Flat(cmp, t.m))[i];
      }
    }
  }

  /** A one-pair (two-pair) sequence around its pair(s) puts `k` between neighbours. */
  lemma RouteLeft(cmp: Comparator, a: seq<Pair>, p: Pair, k: Blob)
    requires ThreeWay(cmp) && Lower(cmp, a, p.key) && cmp(k, p.key) > 0
    ensures Lower(cmp, a + [p], k)
  {
    Mirror(cmp, k, p.key);
    forall i | 0 <= i < |a + [p]| ensures cmp(KeysOf(a + [p])[i], k) < 0 {
      if i < |a| {
        assert KeysOf(a + [p])[i] == KeysOf(a)[i];
        Below(cmp, KeysOf(a)[i], p.key, k);
      }
    }
  }

  lemma RouteRight(cmp: Comparator, k: Blob, p: Pair, b: seq<Pair>)
    requires ThreeWay(cmp) && Upper(cmp, p.key, b) && cmp(k, p.key) < 0
    ensures Upper(cmp, k, [p] + b)
  {
    forall i | 0 <= i < |[p] + b| ensures cmp(k, KeysOf([p] + b)[i]) < 0 {
      if i > 0 {
        assert KeysOf([p] + b)[i] == KeysOf(b)[i - 1];
        Below(cmp, k, p.key, KeysOf(b)[i - 1]);
      }
    }
  }

  /** The comparisons at a node of an ordered tree lead to the only child that can hold `k`:
      everything to the left of it is smaller, everything to the right larger. */
  lemma RouteSeparates(cmp: Comparator, t: Tree, k: Blob)
    requires ThreeWay(cmp) && IsNode(t) && InOrder(cmp, Flat(cmp, t))
    ensures var i := Route(cmp, t, k);
            if i < 0 then HasKey(cmp, Flat(cmp, t), k)
            else Between(cmp, Left(cmp, t, i), k, Right(cmp, t, i)) && InOrder(cmp, Flat(cmp, Child(t, i)))
  {
    var i := Route(cmp, t, k);
    NodeInOrder(cmp, t);
    if i >= 0 {
      ChildAround(cmp, t, i);
      InOrderParts(cmp, Left(cmp, t, i), Flat(cmp, Child(t, i)), Right(cmp, t, i));
      RouteBounds(cmp, t, k);
    } else if i == -1 {
      assert KeysOf(Flat(cmp, t))[|Flat(cmp, t.l)|] == t.p.key;
    } else {
      assert KeysOf(Flat(cmp, t))[|Flat(cmp, t.l) + [t.p] + Flat(cmp, t.m)|] == t.q.key;
    }
  }

  lemma RouteBounds(cmp: Comparator, t: Tree, k: Blob)
    requires ThreeWay(cmp) && IsNode(t) && InOrder(cmp, Flat(cmp, t)) && Route(cmp, t, k) >= 0
    ensures Between(cmp, Left(cmp, t, Route(cmp, t, k)), k, Right(cmp, t, Route(cmp, t, k)))
  {
    var i := Route(cmp, t, k);
    NodeInOrder(cmp, t);
    if i == 1 { RouteLeft(cmp, Flat(cmp, t.l), t.p, k); }
    if t.One? {
      if i == 0 { RouteRight(cmp, k, t.p, Flat(cmp, t.r)); }
    } else {
      if i == 2 { RouteLeft(cmp, Flat(cmp, t.l) + [t.p] + Flat(cmp, t.m), t.q, k); }
      if i == 1 { RouteRight(cmp, k, t.q, Flat(cmp, t.r)); }
      if i == 0 { RouteFarRight(cmp, t, k); }
    }
  }

  lemma RouteFarRight(cmp: Comparator, t: Tree, k: Blob)
    requires ThreeWay(cmp) && t.Two? && InOrder(cmp, Flat(cmp, t)) && cmp(k, t.p.key) < 0
    ensures Upper(cmp, k, Right(cmp, t, 0))
  {
    var b := Flat(cmp, t.m) + [t.q] + Flat(cmp, t.r);
    ChildAround(cmp, t, 0);
    assert Right(cmp, t, 0) == [t.p] + b && Flat(cmp, t) == Flat(cmp, t.l) + [t.p] + b;
    InOrderAround(cmp, Flat(cmp, t.l), t.p, b);
    RouteRight(cmp, k, t.p, b);
  }

  /** The search finds a pair on the way down for `k`. */
  predicate Finds(cmp: Comparator, t: Tree, k: Blob)
    decreases t
  {
    IsNode(t) && (Route(cmp, t, k) < 0 || Finds(cmp, Child(t, Route(cmp, t, k)), k))
  }

  /** In an ordered tree the way down misses nothing. */
  lemma {:induction false} SearchIsComplete(cmp: Comparator, t: Tree, k: Blob, h: nat)
    requires ThreeWay(cmp) && Full(t, h) && InOrder(cmp, Flat(cmp, t))
    ensures Finds(cmp, t, k) <==> HasKey(cmp, Flat(cmp, t), k)
  {
    if IsNode(t) {
      var i := Route(cmp, t, k);
      RouteSeparates(cmp, t, k);
      if i >= 0 {
        SearchIsComplete(cmp, Child(t, i), k, h - 1);
        ChildAround(cmp, t, i);
        BetweenHas(cmp, Left(cmp, t, i), Flat(cmp, Child(t, i)), Right(cmp, t, i), k);
      }
    }
  }

  // ---------- splitting (containers/btree.c:27-74) ----------

  datatype Halves = Halves(left: Tree, mid: Pair, right: Tree)

  /** Left half, promoted pair, right half. */
  function SplitUp(cmp: Comparator, t: Tree): Halves
    requires t.Over?
  {
    if cmp(t.x.key, t.p.key) < 0 then Halves(One(t.x, t.xc, t.l), t.p, One(t.q, t.m, t.r))
    else if cmp(t.x.key, t.q.key) < 0 then Halves(One(t.p, t.l, t.xc), t.x, One(t.q, t.m, t.r))
    else Halves(One(t.p, t.l, t.m), t.q, One(t.x, t.xc, t.r))
  }

  ghost function FlatHalves(cmp: Comparator, v: Halves): seq<Pair> {
    Flat(cmp, v.left) + [v.mid] + Flat(cmp, v.right)
  }

  /** Splitting keeps the pairs in order and gives two one-pair nodes of the same height, in
      all three positions of the parked pair. */
  lemma SplitUpHalves(cmp: Comparator, t: Tree, h: nat)
    requires Overfull(t, h)
    ensures var v := SplitUp(cmp, t);
            && v.left.One? && v.right.One? && Full(v.left, h) && Full(v.right, h)
            && FlatHalves(cmp, v) == Flat(cmp, t)
  {
    var v := SplitUp(cmp, t);
    SevenParts(Flat(cmp, v.left.l), v.left.p, Flat(cmp, v.left.r), v.mid,
               Flat(cmp, v.right.l), v.right.p, Flat(cmp, v.right.r));
  }

  lemma SevenParts<T>(a: seq<T>, p: T, b: seq<T>, q: T, c: seq<T>, r: T, d: seq<T>)
    ensures (a + [p] + b) + [q] + (c + [r] + d) == a + [p] + b + [q] + c + [r] + d
  {}

  // ---------- insertion (containers/btree.c:140-269) ----------

  /** The insertion has two slips, and `fix` corrects them: a full leaf takes the pair without
      comparing keys, and the halves of child 0 of a one-pair node are stored as if child 1
      had split.  `Insert(.., false)` is the code as written. */
  function InsertLeaf(cmp: Comparator, t: Tree, x: Pair, fix: bool): Outcome
    requires IsLeaf(t)
  {
    if t.Two? then
      if fix && Route(cmp, t, x.key) < 0 then Outcome(-1, t)
      else Outcome(1, Over(t.p, t.q, Nil, Nil, Nil, x, Nil))
    else
      var c := cmp(x.key, t.p.key);
      if c == 0 then Outcome(-1, t)
      else if c > 0 then Outcome(0, Two(t.p, x, Nil, Nil, Nil))
      else Outcome(0, Two(x, t.p, Nil, Nil, Nil))
  }

  /** What a node makes of the halves of its child `i`. */
  function TakeHalves(t: Tree, i: int, v: Halves, fix: bool): Outcome
    requires HasChild(t, i)
  {
    match t
    case One(p, l, r) =>
      if i == 1 then Outcome(0, Two(p, v.mid, l, v.left, v.right))
      else if fix then Outcome(0, Two(v.mid, p, v.left, v.right, r))
      else Outcome(0, Two(p, v.mid, v.right, v.left, r))
    case Two(p, q, l, m, r) =>
      var u := WithChild(t, i, v.right);
      Outcome(1, Over(p, q, u.l, u.m, u.r, v.mid, v.left))
  }

  function Absorb(cmp: Comparator, t: Tree, i: int, o: Outcome, fix: bool): Outcome
    requires HasChild(t, i)
  {
    if o.status == 1 && o.tree.Over? then TakeHalves(t, i, SplitUp(cmp, o.tree), fix)
    else Outcome(o.status, WithChild(t, i, o.tree))
  }

  function Insert(cmp: Comparator, t: Tree, x: Pair, fix: bool): Outcome
    decreases t
  {
    if t.Nil? then Outcome(0, One(x, Nil, Nil))
    else if IsLeaf(t) then InsertLeaf(cmp, t, x, fix)
    else if !IsNode(t) then Outcome(-1, t)
    else
      var i := Route(cmp, t, x.key);
      if i < 0 then Outcome(-1, t) else Absorb(cmp, t, i, Insert(cmp, Child(t, i), x, fix), fix)
  }

  /** Insertion into a whole tree: an overfull root is split under a new root. */
  function InsertRoot(cmp: Comparator, t: Tree, x: Pair, fix: bool): Outcome {
    var o := Insert(cmp, t, x, fix);
    if o.status == 1 && o.tree.Over? then
      var v := SplitUp(cmp, o.tree);
      Outcome(0, One(v.mid, v.left, v.right))
    else o
  }

  lemma TakeHalvesIgnoresChild(t: Tree, i: int, c: Tree, v: Halves, fix: bool)
    requires HasChild(t, i)
    ensures HasChild(WithChild(t, i, c), i) && TakeHalves(WithChild(t, i, c), i, v, fix) == TakeHalves(t, i, v, fix)
  {}

  /** What an insertion below a tree of height `h` may give back: the tree refused, a proper
      tree of the same height, or exactly one overfull node at the top. */
  predicate InsertResult(t: Tree, o: Outcome, h: nat) {
    || (o.status == -1 && o.tree == t)
    || (o.status == 0 && Full(o.tree, if h == 0 then 1 else h))
    || (o.status == 1 && Overfull(o.tree, h))
  }

  lemma FullChild(t: Tree, h: nat, i: int, c: Tree)
    requires Full(t, h) && HasChild(t, i)
    ensures h > 0 && Full(Child(t, i), h - 1)
    ensures Full(c, h - 1) ==> Full(WithChild(t, i, c), h)
    ensures !IsLeaf(t) ==> h > 1
  {}

  lemma AbsorbKeepsShape(cmp: Comparator, t: Tree, i: int, o: Outcome, fix: bool, h: nat)
    requires Full(t, h) && HasChild(t, i) && h > 1 && InsertResult(Child(t, i), o, h - 1)
    ensures InsertResult(t, Absorb(cmp, t, i, o, fix), h)
  {
    ChildAround(cmp, t, i);
    FullChild(t, h, i, o.tree);
    if o.status == 1 {
      SplitUpHalves(cmp, o.tree, h - 1);
      FullChild(t, h, i, SplitUp(cmp, o.tree).right);
    }
  }

  /** Whatever it does to the order, insertion keeps the tree a proper 2-3 tree. */
  lemma {:induction false} InsertKeepsShape(cmp: Comparator, t: Tree, x: Pair, fix: bool, h: nat)
    requires Full(t, h)
    ensures InsertResult(t, Insert(cmp, t, x, fix), h)
  {
    if IsNode(t) && !IsLeaf(t) {
      var i := Route(cmp, t, x.key);
      if i >= 0 {
        FullChild(t, h, i, Child(t, i));
        InsertKeepsShape(cmp, Child(t, i), x, fix, h - 1);
        AbsorbKeepsShape(cmp, t, i, Insert(cmp, Child(t, i), x, fix), fix, h);
      }
    }
  }

  /** One step of the descent, as the caller of the recursion sees it. */
  lemma InsertStep(cmp: Comparator, t: Tree, x: Pair, fix: bool, h: nat)
    requires Full(t, h) && IsNode(t) && !IsLeaf(t) && Route(cmp, t, x.key) >= 0
    ensures var i := Route(cmp, t, x.key);
            var o := Insert(cmp, Child(t, i), x, fix);
            && h > 1 && Full(Child(t, i), h - 1)
            && Insert(cmp, t, x, fix) == Absorb(cmp, t, i, o, fix)
            && (o.status == 1 ==> o.tree.Over?)
            && (o.status == -1 ==> o.tree == Child(t, i))
  {
    FullChild(t, h, Route(cmp, t, x.key), Child(t, Route(cmp, t, x.key)));
    InsertKeepsShape(cmp, Child(t, Route(cmp, t, x.key)), x, fix, h - 1);
  }

  // ---------- the corrected insertion is right ----------

  /** A node with the halves of child `i` in that child's place. */
  ghost function FlatTaken(cmp: Comparator, t: Tree, i: int, v: Halves): seq<Pair>
    requires HasChild(t, i)
  {
    Left(cmp, t, i) + FlatHalves(cmp, v) + Right(cmp, t, i)
  }

  /** In an ordered sequence the pairs between the parts compare as their positions say. */
  lemma Seams(cmp: Comparator, a: seq<Pair>, p: Pair, b: seq<Pair>, q: Pair, c: seq<Pair>, r: Pair, d: seq<Pair>)
    requires ThreeWay(cmp) && InOrder(cmp, a + [p] + b + [q] + c + [r] + d)
    ensures cmp(p.key, q.key) < 0 && cmp(p.key, r.key) < 0 && cmp(q.key, r.key) < 0
    ensures cmp(q.key, p.key) > 0 && cmp(r.key, p.key) > 0 && cmp(r.key, q.key) > 0
  {
    var s := KeysOf(a + [p] + b + [q] + c + [r] + d);
    var i, j, k := |a|, |a| + 1 + |b|, |a| + 1 + |b| + 1 + |c|;
    assert s[i] == p.key && s[j] == q.key && s[k] == r.key;
    Mirror(cmp, p.key, q.key);
    Mirror(cmp, p.key, r.key);
    Mirror(cmp, q.key, r.key);
  }

  lemma TakeHalvesOne(cmp: Comparator, t: Tree, i: int, v: Halves)
    requires t.One? && HasChild(t, i)
    ensures Flat(cmp, TakeHalves(t, i, v, true).tree) == FlatTaken(cmp, t, i, v)
  {
    if i == 0 {
      Regroup(Flat(cmp, v.left), v.mid, Flat(cmp, v.right), t.p, Flat(cmp, t.r));
      assert FlatTaken(cmp, t, i, v) == FlatHalves(cmp, v) + ([t.p] + Flat(cmp, t.r));
      Tail(FlatHalves(cmp, v), [t.p], Flat(cmp, t.r), []);
    } else {
      assert Flat(cmp, t.l) + [t.p] + Flat(cmp, v.left) + [v.mid] + Flat(cmp, v.right) ==
             Flat(cmp, t.l) + [t.p] + (Flat(cmp, v.left) + [v.mid] + Flat(cmp, v.right)) + [];
    }
  }

  /** The taken sequence of a two-pair node, spelled out. */
  lemma TakenTwo(cmp: Comparator, t: Tree, i: int, v: Halves)
    requires t.Two? && HasChild(t, i)
    ensures var (x, w) := (Flat(cmp, v.left), Flat(cmp, v.right));
            var (l, m, r) := (Flat(cmp, t.l), Flat(cmp, t.m), Flat(cmp, t.r));
            FlatTaken(cmp, t, i, v) ==
              if i == 0 then x + [v.mid] + w + [t.p] + m + [t.q] + r
              else if i == 1 then l + [t.p] + x + [v.mid] + w + [t.q] + r
              else l + [t.p] + m + [t.q] + x + [v.mid] + w
  {
    var (x, w, l, m, r) := (Flat(cmp, v.left), Flat(cmp, v.right), Flat(cmp, t.l), Flat(cmp, t.m), Flat(cmp, t.r));
    if i == 0 {
      Seven(x, [v.mid], w, [t.p], m, [t.q], r);
    } else if i == 1 {
      Seven(l, [t.p], x, [v.mid], w, [t.q], r);
    } else {
      Seven(l, [t.p], m, [t.q], x, [v.mid], w);
    }
  }

  lemma Seven<T>(a: seq<T>, b: seq<T>, c: seq<T>, d: seq<T>, e: seq<T>, f: seq<T>, g: seq<T>)
    ensures [] + (a + b + c) + (d + e + f + g) == a + b + c + d + e + f + g
    ensures a + b + (c + d + e) + (f + g) == a + b + c + d + e + f + g
    ensures a + b + c + d + (e + f + g) + [] == a + b + c + d + e + f + g
  {}

  lemma TakeHalvesTwo(cmp: Comparator, t: Tree, i: int, v: Halves)
    requires ThreeWay(cmp) && t.Two? && HasChild(t, i) && InOrder(cmp, FlatTaken(cmp, t, i, v))
    ensures Flat(cmp, TakeHalves(t, i, v, true).tree) == FlatTaken(cmp, t, i, v)
  {
    var (x, w, l, m, r) := (Flat(cmp, v.left), Flat(cmp, v.right), Flat(cmp, t.l), Flat(cmp, t.m), Flat(cmp, t.r));
    TakenTwo(cmp, t, i, v);
    if i == 0 {
      Seams(cmp, x, v.mid, w, t.p, m, t.q, r);
    } else if i == 1 {
      Seams(cmp, l, t.p, x, v.mid, w, t.q, r);
    } else {
      Seams(cmp, l, t.p, m, t.q, x, v.mid, w);
    }
  }

  lemma Tail<T>(a: seq<T>, b: seq<T>, c: seq<T>, d: seq<T>)
    ensures a + b + c + d == a + (b + c + d)
  {}

  /** What an insertion has to achieve below `t`. */
  ghost predicate Places(cmp: Comparator, t: Tree, x: Pair, o: Outcome) {
    if HasKey(cmp, Flat(cmp, t), x.key) then o.status == -1
    else o.status >= 0 && Flat(cmp, o.tree) == With(cmp, Flat(cmp, t), x)
  }

  lemma WithEmpty(cmp: Comparator, x: Pair)
    ensures With(cmp, [], x) == [x] && !HasKey(cmp, [], x.key)
  {}

  lemma LeafFlatOne(cmp: Comparator, t: Tree, x: Pair)
    requires IsLeaf(t) && t.One? && Route(cmp, t, x.key) >= 0
    ensures var i := Route(cmp, t, x.key);
            && Flat(cmp, InsertLeaf(cmp, t, x, true).tree) == Left(cmp, t, i) + [x] + Right(cmp, t, i)
            && Flat(cmp, t) == Left(cmp, t, i) + [] + Right(cmp, t, i)
  {
    var i := Route(cmp, t, x.key);
    assert Flat(cmp, t) == [t.p];
    assert Left(cmp, t, i) == (if i == 0 then [] else [t.p]) && Right(cmp, t, i) == if i == 0 then [t.p] else [];
  }

  /** What stands to either side of a child of a full leaf. */
  lemma AroundLeafTwo(cmp: Comparator, t: Tree, i: int)
    requires IsLeaf(t) && t.Two? && 0 <= i <= 2
    ensures Flat(cmp, t) == [t.p, t.q] && Left(cmp, t, i) == [t.p, t.q][..i] && Right(cmp, t, i) == [t.p, t.q][i..]
  {}

  lemma LeafFlatTwo(cmp: Comparator, t: Tree, x: Pair)
    requires IsLeaf(t) && t.Two? && Route(cmp, t, x.key) >= 0
    ensures var i := Route(cmp, t, x.key);
            && Flat(cmp, InsertLeaf(cmp, t, x, true).tree) == Left(cmp, t, i) + [x] + Right(cmp, t, i)
            && Flat(cmp, t) == Left(cmp, t, i) + [] + Right(cmp, t, i)
  {
    var i := Route(cmp, t, x.key);
    AroundLeafTwo(cmp, t, i);
    assert Flat(cmp, InsertLeaf(cmp, t, x, true).tree) ==
           (if i == 0 then [x, t.p, t.q] else if i == 1 then [t.p, x, t.q] else [t.p, t.q, x]);
  }

  lemma InsertLeafPlaces(cmp: Comparator, t: Tree, x: Pair)
    requires ThreeWay(cmp) && IsLeaf(t) && InOrder(cmp, Flat(cmp, t))
    ensures Places(cmp, t, x, InsertLeaf(cmp, t, x, true))
  {
    var i := Route(cmp, t, x.key);
    RouteSeparates(cmp, t, x.key);
    if i >= 0 {
      if t.One? { LeafFlatOne(cmp, t, x); } else { LeafFlatTwo(cmp, t, x); }
      WithEmpty(cmp, x);
      BetweenWith(cmp, Left(cmp, t, i), [], Right(cmp, t, i), x);
      BetweenHas(cmp, Left(cmp, t, i), [], Right(cmp, t, i), x.key);
    }
  }

  lemma AbsorbPlaces(cmp: Comparator, t: Tree, i: int, o: Outcome, x: Pair, h: nat)
    requires ThreeWay(cmp) && Full(t, h) && h > 1 && InOrder(cmp, Flat(cmp, t))
    requires i == Route(cmp, t, x.key) && i >= 0
    requires InsertResult(Child(t, i), o, h - 1) && Places(cmp, Child(t, i), x, o)
    ensures Places(cmp, t, x, Absorb(cmp, t, i, o, true))
  {
    var s, a, b := Flat(cmp, Child(t, i)), Left(cmp, t, i), Right(cmp, t, i);
    RouteSeparates(cmp, t, x.key);
    ChildAround(cmp, t, i);
    BetweenHas(cmp, a, s, b, x.key);
    BetweenWith(cmp, a, s, b, x);
    if o.status == 1 {
      var v := SplitUp(cmp, o.tree);
      SplitUpHalves(cmp, o.tree, h - 1);
      WithInOrder(cmp, Flat(cmp, t), x);
      if t.One? { TakeHalvesOne(cmp, t, i, v); } else { TakeHalvesTwo(cmp, t, i, v); }
    } else {
      FlatAround(cmp, t, i, o.tree);
    }
  }

  /** The corrected insertion adds exactly the new pair when its key is absent, and otherwise
      refuses. */
  lemma {:induction false} CorrectedInsertPlaces(cmp: Comparator, t: Tree, x: Pair, h: nat)
    requires ThreeWay(cmp) && Full(t, h) && InOrder(cmp, Flat(cmp, t))
    ensures Places(cmp, t, x, Insert(cmp, t, x, true))
  {
    if t.Nil? {
      WithEmpty(cmp, x);
      assert [] + [x] + [] == [x];
    } else if IsLeaf(t) {
      InsertLeafPlaces(cmp, t, x);
    } else {
      var i := Route(cmp, t, x.key);
      RouteSeparates(cmp, t, x.key);
      if i >= 0 {
        FullChild(t, h, i, Child(t, i));
        InsertKeepsShape(cmp, Child(t, i), x, true, h - 1);
        CorrectedInsertPlaces(cmp, Child(t, i), x, h - 1);
        AbsorbPlaces(cmp, t, i, Insert(cmp, Child(t, i), x, true), x, h);
      }
    }
  }

  // ---------- when the insertion as written is right ----------

  /** Every node on the way down for `k` holds two pairs, so all of them will split. */
  predicate Overflows(cmp: Comparator, t: Tree, k: Blob)
    decreases t
  {
    t.Two? && (IsLeaf(t) || (Route(cmp, t, k) >= 0 && Overflows(cmp, Child(t, Route(cmp, t, k)), k)))
  }

  /** The way down for `k` runs into one of the two slips: it ends in a full leaf that holds
      `k`, or the chain of splits stops at child 0 of a one-pair node. */
  predicate Hazard(cmp: Comparator, t: Tree, k: Blob)
    decreases t
  {
    if IsLeaf(t) then t.Two? && Route(cmp, t, k) < 0
    else if !IsNode(t) || Route(cmp, t, k) < 0 then false
    else
      var c := Child(t, Route(cmp, t, k));
      Hazard(cmp, c, k) || (t.One? && Route(cmp, t, k) == 0 && Overflows(cmp, c, k))
  }

  lemma {:induction false} OverflowIsStatusOne(cmp: Comparator, t: Tree, x: Pair, h: nat)
    requires Full(t, h)
    ensures Insert(cmp, t, x, false).status == 1 <==> Overflows(cmp, t, x.key)
  {
    if IsNode(t) && !IsLeaf(t) {
      var i := Route(cmp, t, x.key);
      if i >= 0 {
        FullChild(t, h, i, Child(t, i));
        InsertKeepsShape(cmp, Child(t, i), x, false, h - 1);
        OverflowIsStatusOne(cmp, Child(t, i), x, h - 1);
      }
    }
  }

  /** Away from the slips the code as written and the corrected code agree. */
  lemma {:induction false} NoHazardAgrees(cmp: Comparator, t: Tree, x: Pair, h: nat)
    requires Full(t, h) && !Hazard(cmp, t, x.key)
    ensures Insert(cmp, t, x, false) == Insert(cmp, t, x, true)
  {
    if IsNode(t) && !IsLeaf(t) {
      var i := Route(cmp, t, x.key);
      if i >= 0 {
        FullChild(t, h, i, Child(t, i));
        NoHazardAgrees(cmp, Child(t, i), x, h - 1);
        OverflowIsStatusOne(cmp, Child(t, i), x, h - 1);
      }
    }
  }

  /** What goes wrong: a key that is there is not refused, or the order is lost. */
  ghost predicate Spoiled(cmp: Comparator, t: Tree, x: Pair, o: Outcome) {
    || (HasKey(cmp, Flat(cmp, t), x.key) && o.status != -1)
    || (o.status == 0 && !InOrder(cmp, Flat(cmp, o.tree)))
  }

  lemma AbsorbSpoils(cmp: Comparator, t: Tree, i: int, o: Outcome, x: Pair, h: nat)
    requires ThreeWay(cmp) && Full(t, h) && h > 1 && InOrder(cmp, Flat(cmp, t))
    requires i == Route(cmp, t, x.key) && i >= 0
    requires InsertResult(Child(t, i), o, h - 1) && Spoiled(cmp, Child(t, i), x, o)
    ensures Spoiled(cmp, t, x, Absorb(cmp, t, i, o, false))
  {
    var s, a, b := Flat(cmp, Child(t, i)), Left(cmp, t, i), Right(cmp, t, i);
    RouteSeparates(cmp, t, x.key);
    ChildAround(cmp, t, i);
    BetweenHas(cmp, a, s, b, x.key);
    if o.status == 0 && !InOrder(cmp, Flat(cmp, o.tree)) {
      FlatAround(cmp, t, i, o.tree);
      if InOrder(cmp, Flat(cmp, WithChild(t, i, o.tree))) {
        InOrderParts(cmp, a, Flat(cmp, o.tree), b);
      }
    }
  }

  /** Where the slip puts the halves of child 0 of a one-pair node, whatever the order: the right
      one first, then the node's own pair, then the left one. */
  lemma HalvesTraded(cmp: Comparator, t: Tree, v: Halves)
    requires t.One?
    ensures TakeHalves(t, 0, v, false).status == 0
    ensures Flat(cmp, TakeHalves(t, 0, v, false).tree) ==
            Flat(cmp, v.right) + [t.p] + Flat(cmp, v.left) + [v.mid] + Flat(cmp, t.r)
  {}

  /** The halves of child 0, stored the wrong way round, put larger keys first. */
  lemma MisplacedHalves(cmp: Comparator, t: Tree, v: Halves)
    requires ThreeWay(cmp) && t.One? && v.left.One? && cmp(v.left.p.key, t.p.key) < 0
    ensures !InOrder(cmp, Flat(cmp, TakeHalves(t, 0, v, false).tree))
  {
    var (w, x, r) := (Flat(cmp, v.right), Flat(cmp, v.left), Flat(cmp, t.r));
    var s := w + [t.p] + x + [v.mid] + r;
    HalvesTraded(cmp, t, v);
    var j := |Flat(cmp, v.left.l)|;
    assert x[j] == v.left.p && s[|w| + 1 + j] == x[j] && s[|w|] == t.p;
    assert KeysOf(s)[|w| + 1 + j] == v.left.p.key && KeysOf(s)[|w|] == t.p.key;
    Mirror(cmp, v.left.p.key, t.p.key);
  }

  /** The first pair of a split child that took a new smallest-side pair is below `k`. */
  lemma FirstHalfBelow(cmp: Comparator, s: seq<Pair>, x: Pair, v: Halves, k: Blob)
    requires v.left.One? && FlatHalves(cmp, v) == With(cmp, s, x)
    requires Lower(cmp, s, k) && cmp(x.key, k) < 0
    ensures cmp(v.left.p.key, k) < 0
  {
    WithLower(cmp, s, x, k);
    assert FlatHalves(cmp, v)[|Flat(cmp, v.left.l)|] == v.left.p;
    assert KeysOf(FlatHalves(cmp, v))[|Flat(cmp, v.left.l)|] == v.left.p.key;
  }

  lemma OverflowMisplaces(cmp: Comparator, t: Tree, x: Pair, h: nat)
    requires ThreeWay(cmp) && Full(t, h) && InOrder(cmp, Flat(cmp, t)) && t.One? && !IsLeaf(t)
    requires Route(cmp, t, x.key) == 0 && Overflows(cmp, t.l, x.key) && !Hazard(cmp, t.l, x.key)
    ensures Spoiled(cmp, t, x, Insert(cmp, t, x, false))
  {
    RouteSeparates(cmp, t, x.key);
    NodeInOrder(cmp, t);
    InsertKeepsShape(cmp, t.l, x, false, h - 1);
    OverflowIsStatusOne(cmp, t.l, x, h - 1);
    NoHazardAgrees(cmp, t.l, x, h - 1);
    CorrectedInsertPlaces(cmp, t.l, x, h - 1);
    SplitUpHalves(cmp, Insert(cmp, t.l, x, false).tree, h - 1);
    var v := SplitUp(cmp, Insert(cmp, t.l, x, false).tree);
    FirstHalfBelow(cmp, Flat(cmp, t.l), x, v, t.p.key);
    MisplacedHalves(cmp, t, v);
  }

  lemma {:induction false} HazardSpoils(cmp: Comparator, t: Tree, x: Pair, h: nat)
    requires ThreeWay(cmp) && Full(t, h) && InOrder(cmp, Flat(cmp, t)) && Hazard(cmp, t, x.key)
    ensures Spoiled(cmp, t, x, Insert(cmp, t, x, false))
  {
    RouteSeparates(cmp, t, x.key);
    if !IsLeaf(t) {
      var i := Route(cmp, t, x.key);
      FullChild(t, h, i, Child(t, i));
      if Hazard(cmp, Child(t, i), x.key) {
        InsertKeepsShape(cmp, Child(t, i), x, false, h - 1);
        HazardSpoils(cmp, Child(t, i), x, h - 1);
        AbsorbSpoils(cmp, t, i, Insert(cmp, Child(t, i), x, false), x, h);
      } else {
        OverflowMisplaces(cmp, t, x, h);
      }
    }
  }

  // ---------- insertion into a whole tree ----------

  function Depth(t: Tree): nat {
    if IsNode(t) then 1 + Depth(t.l) else 0
  }

  /** A proper 2-3 search tree. */
  ghost predicate Proper(cmp: Comparator, t: Tree) {
    Full(t, Depth(t)) && InOrder(cmp, Flat(cmp, t))
  }

  lemma {:induction false} FullDepth(t: Tree, h: nat)
    requires Full(t, h)
    ensures h == Depth(t)
  {
    if IsNode(t) { FullDepth(t.l, h - 1); }
  }

  /** What insertion promises: an equal key is refused and the tree left as it is; otherwise
      the result is a proper tree with exactly the new pair added. */
  ghost predicate InsertPromise(cmp: Comparator, t: Tree, x: Pair, o: Outcome) {
    if HasKey(cmp, Flat(cmp, t), x.key) then o == Outcome(-1, t)
    else o.status == 0 && Proper(cmp, o.tree) && Flat(cmp, o.tree) == With(cmp, Flat(cmp, t), x)
  }

  lemma RootSplit(cmp: Comparator, o: Outcome, h: nat)
    requires o.status == 1 && Overfull(o.tree, h)
    ensures var v := SplitUp(cmp, o.tree);
            Full(One(v.mid, v.left, v.right), h + 1) && Flat(cmp, One(v.mid, v.left, v.right)) == Flat(cmp, o.tree)
  {
    SplitUpHalves(cmp, o.tree, h);
  }

  lemma PromiseAtRoot(cmp: Comparator, t: Tree, x: Pair, fix: bool, h: nat)
    requires ThreeWay(cmp) && Full(t, h) && InOrder(cmp, Flat(cmp, t))
    requires Places(cmp, t, x, Insert(cmp, t, x, fix))
    ensures InsertPromise(cmp, t, x, InsertRoot(cmp, t, x, fix))
  {
    var o, u := Insert(cmp, t, x, fix), InsertRoot(cmp, t, x, fix);
    InsertKeepsShape(cmp, t, x, fix, h);
    if !HasKey(cmp, Flat(cmp, t), x.key) {
      WithInOrder(cmp, Flat(cmp, t), x);
      if o.status == 1 {
        RootSplit(cmp, o, h);
        FullDepth(u.tree, h + 1);
      } else {
        FullDepth(u.tree, if h == 0 then 1 else h);
      }
    }
  }

  /** With both slips corrected, insertion keeps its promise on every proper tree. */
  lemma CorrectedInsert(cmp: Comparator, t: Tree, x: Pair)
    requires ThreeWay(cmp) && Proper(cmp, t)
    ensures InsertPromise(cmp, t, x, InsertRoot(cmp, t, x, true))
  {
    CorrectedInsertPlaces(cmp, t, x, Depth(t));
    PromiseAtRoot(cmp, t, x, true, Depth(t));
  }

  /** As written, insertion keeps its promise exactly when the way down for the key meets
      neither slip. */
  lemma InsertExactly(cmp: Comparator, t: Tree, x: Pair)
    requires ThreeWay(cmp) && Proper(cmp, t)
    ensures InsertPromise(cmp, t, x, InsertRoot(cmp, t, x, false)) <==> !Hazard(cmp, t, x.key)
  {
    var h := Depth(t);
    if Hazard(cmp, t, x.key) {
      HazardSpoils(cmp, t, x, h);
    } else {
      NoHazardAgrees(cmp, t, x, h);
      CorrectedInsertPlaces(cmp, t, x, h);
      PromiseAtRoot(cmp, t, x, false, h);
    }
  }
}
