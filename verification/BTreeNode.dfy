/** Linked 2-3 tree nodes and the steps of containers/btree.c that rearrange them. */
module BTreeNode {
  import opened Checks
  import opened Options
  import opened Ordering
  import opened Pairs
  import T = TwoThree

  /** `kv` has two slots and `childs` three; an empty slot is None or null. */
  class Node {
    var kv: seq<Option<Pair>>
    var childs: seq<Node?>
    var extrakv: Option<Pair>
    var extrachild: Node?

    constructor ()
      ensures kv == [None, None] && childs == [null, null, null] && extrakv == None && extrachild == null
    {
      kv, childs, extrakv, extrachild := [None, None], [null, null, null], None, null;
    }
  }

  /** Which node sits where, and what it holds. */
  datatype Shape =
    | Nil
    | One(node: Node, p: Pair, l: Shape, r: Shape)
    | Two(node: Node, p: Pair, q: Pair, l: Shape, m: Shape, r: Shape)
    | Over(node: Node, p: Pair, q: Pair, l: Shape, m: Shape, r: Shape, x: Pair, xc: Shape)
    | Under(node: Node, c: Shape)

  function Root(s: Shape): (n: Node?)
    ensures n != null ==> n in Repr(s)
  {
    if s.Nil? then null else s.node
  }

  function Repr(s: Shape): set<Node> {
    match s
    case Nil => {}
    case One(n, _, l, r) => {n} + Repr(l) + Repr(r)
    case Two(n, _, _, l, m, r) => {n} + Repr(l) + Repr(m) + Repr(r)
    case Over(n, _, _, l, m, r, _, xc) => {n} + Repr(l) + Repr(m) + Repr(r) + Repr(xc)
    case Under(n, c) => {n} + Repr(c)
  }

  /** No node occurs twice. */
  predicate Distinct(s: Shape) {
    match s
    case Nil => true
    case One(n, _, l, r) =>
      Distinct(l) && Distinct(r) && {n} !! Repr(l) !! Repr(r)
    case Two(n, _, _, l, m, r) =>
      Distinct(l) && Distinct(m) && Distinct(r) && {n} !! Repr(l) !! Repr(m) !! Repr(r)
    case Over(n, _, _, l, m, r, _, xc) =>
      Distinct(l) && Distinct(m) && Distinct(r) && Distinct(xc) && {n} !! Repr(l) !! Repr(m) !! Repr(r) !! Repr(xc)
    case Under(n, c) =>
      Distinct(c) && n !in Repr(c)
  }

  /** The tree without its nodes' identities. */
  function Value(s: Shape): T.Tree {
    match s
    case Nil => T.Nil
    case One(_, p, l, r) => T.One(p, Value(l), Value(r))
    case Two(_, p, q, l, m, r) => T.Two(p, q, Value(l), Value(m), Value(r))
    case Over(_, p, q, l, m, r, x, xc) => T.Over(p, q, Value(l), Value(m), Value(r), x, Value(xc))
    case Under(_, c) => T.Under(Value(c))
  }

  /** What the fields of the node at the top of `s` should hold. */
  ghost predicate Fits(s: Shape)
    requires !s.Nil?
    reads s.node
  {
    match s
    case One(n, p, l, r) =>
      n.kv == [Some(p), None] && n.childs == [Root(l), Root(r), null] && n.extrakv == None && n.extrachild == null
    case Two(n, p, q, l, m, r) =>
      n.kv == [Some(p), Some(q)] && n.childs == [Root(l), Root(m), Root(r)] && n.extrakv == None && n.extrachild == null
    case Over(n, p, q, l, m, r, x, xc) =>
      && n.kv == [Some(p), Some(q)] && n.childs == [Root(l), Root(m), Root(r)]
      && n.extrakv == Some(x) && n.extrachild == Root(xc)
    case Under(n, c) =>
      n.kv == [None, None] && n.childs == [Root(c), null, null] && n.extrakv == None && n.extrachild == null
  }

  ghost predicate Linked(s: Shape)
    reads Repr(s)
  {
    match s
    case Nil => true
    case One(_, _, l, r) => Fits(s) && Linked(l) && Linked(r)
    case Two(_, _, _, l, m, r) => Fits(s) && Linked(l) && Linked(m) && Linked(r)
    case Over(_, _, _, l, m, r, _, xc) => Fits(s) && Linked(l) && Linked(m) && Linked(r) && Linked(xc)
    case Under(_, c) => Fits(s) && Linked(c)
  }

  /** Sound: no node occurs twice and all of them are in place. */
  ghost function Check(s: Shape): Health
    reads Repr(s)
  {
    if Distinct(s) && Linked(s) then Sound else Unsound
  }

  // ---------- split_up (containers/btree.c:27-74) ----------

  /** The field updates. */
  method SplitFields(cmp: Comparator, n: Node, top: Node) returns (promoted: Pair)
    requires n != top && |n.kv| == 2 && |n.childs| == 3
    requires n.kv[0].Some? && n.kv[1].Some? && n.extrakv.Some?
    modifies n, top
    ensures var (p, q, x) := (old(n.kv[0].value), old(n.kv[1].value), old(n.extrakv.value));
            var (c, xc) := (old(n.childs), old(n.extrachild));
            && n.extrakv == top.extrakv == None && n.extrachild == top.extrachild == null
            && if cmp(x.key, p.key) < 0 then
                 && promoted == p && top.kv == [Some(x), None] && top.childs == [xc, c[0], null]
                 && n.kv == [Some(q), None] && n.childs == [c[1], c[2], null]
               else if cmp(x.key, q.key) < 0 then
                 && promoted == x && top.kv == [Some(p), None] && top.childs == [c[0], xc, null]
                 && n.kv == [Some(q), None] && n.childs == [c[1], c[2], null]
               else
                 && promoted == q && top.kv == [Some(p), None] && top.childs == [c[0], c[1], null]
                 && n.kv == [Some(x), None] && n.childs == [xc, c[2], null]
  {
    top.extrakv, top.extrachild := None, null;
    var x := n.extrakv.value;
    var firstcmp := cmp(x.key, n.kv[0].value.key);
    if firstcmp < 0 {
      promoted := n.kv[0].value;
      top.kv := [n.extrakv, None];
      top.childs := [n.extrachild, n.childs[0], null];
      n.kv := [n.kv[1], None];
      n.childs := [n.childs[1], n.childs[2], null];
    } else {
      var secondcmp := cmp(x.key, n.kv[1].value.key);
      if secondcmp < 0 {
        promoted := x;
        top.kv := [n.kv[0], None];
        top.childs := [n.childs[0], n.extrachild, null];
        n.kv := [n.kv[1], None];
        n.childs := [n.childs[1], n.childs[2], null];
      } else {
        promoted := n.kv[1].value;
        top.kv := [n.kv[0], None];
        top.childs := [n.childs[0], n.childs[1], null];
        n.kv := [n.extrakv, None];
        n.childs := [n.extrachild, n.childs[2], null];
      }
    }
    n.extrakv, n.extrachild := None, null;
  }

  /** Splits an overfull node: the new node `top` becomes the left half, `n` the right one. */
  method SplitUp(cmp: Comparator, n: Node, top: Node, ghost s: Shape)
    returns (promoted: Pair, ghost left: Shape, ghost right: Shape)
    requires s.Over? && n == s.node && Check(s).Sound? && top !in Repr(s)
    modifies n, top
    ensures Check(left).Sound? && Check(right).Sound?
    ensures Root(left) == top && Root(right) == n && Repr(left) !! Repr(right)
    ensures Repr(left) + Repr(right) == Repr(s) + {top}
    ensures T.SplitUp(cmp, Value(s)) == T.Halves(Value(left), promoted, Value(right))
  {
    assert allocated(Repr(s));
    promoted := SplitFields(cmp, n, top);
    assert Linked(s.l) == old(Linked(s.l)) && Linked(s.m) == old(Linked(s.m));
    assert Linked(s.r) == old(Linked(s.r)) && Linked(s.xc) == old(Linked(s.xc));
    if cmp(s.x.key, s.p.key) < 0 {
      left, right := One(top, s.x, s.xc, s.l), One(n, s.q, s.m, s.r);
    } else if cmp(s.x.key, s.q.key) < 0 {
      left, right := One(top, s.p, s.l, s.xc), One(n, s.q, s.m, s.r);
    } else {
      left, right := One(top, s.p, s.l, s.m), One(n, s.x, s.xc, s.r);
    }
  }

  // ---------- a node around one of its children ----------

  predicate HasChild(s: Shape, i: int) {
    (s.One? && 0 <= i <= 1) || (s.Two? && 0 <= i <= 2)
  }

  function Child(s: Shape, i: int): (c: Shape)
    requires HasChild(s, i)
    ensures c < s
  {
    if i == 0 then s.l else if s.Two? && i == 1 then s.m else s.r
  }

  function WithChild(s: Shape, i: int, c: Shape): Shape
    requires HasChild(s, i)
  {
    match s
    case One(n, p, l, r) => if i == 0 then One(n, p, c, r) else One(n, p, l, c)
    case Two(n, p, q, l, m, r) =>
      if i == 0 then Two(n, p, q, c, m, r) else if i == 1 then Two(n, p, q, l, c, r) else Two(n, p, q, l, m, c)
  }

  /** The nodes of `s` outside its child `i`. */
  function Rest(s: Shape, i: int): set<Node>
    requires HasChild(s, i)
  {
    match s
    case One(n, p, l, r) => {n} + if i == 0 then Repr(r) else Repr(l)
    case Two(n, p, q, l, m, r) =>
      {n} + if i == 0 then Repr(m) + Repr(r) else if i == 1 then Repr(l) + Repr(r) else Repr(l) + Repr(m)
  }

  /** Everything of `s` outside its child `i` is in place. */
  ghost predicate LinkedRest(s: Shape, i: int)
    requires HasChild(s, i)
    reads Rest(s, i)
  {
    match s
    case One(n, p, l, r) => Fits(s) && if i == 0 then Linked(r) else Linked(l)
    case Two(n, p, q, l, m, r) =>
      && Fits(s)
      && if i == 0 then Linked(m) && Linked(r)
         else if i == 1 then Linked(l) && Linked(r)
         else Linked(l) && Linked(m)
  }

  ghost predicate DistinctRest(s: Shape, i: int)
    requires HasChild(s, i)
  {
    match s
    case One(n, p, l, r) =>
      if i == 0 then Distinct(r) && n !in Repr(r) else Distinct(l) && n !in Repr(l)
    case Two(n, p, q, l, m, r) =>
      if i == 0 then Distinct(m) && Distinct(r) && {n} !! Repr(m) !! Repr(r)
      else if i == 1 then Distinct(l) && Distinct(r) && {n} !! Repr(l) !! Repr(r)
      else Distinct(l) && Distinct(m) && {n} !! Repr(l) !! Repr(m)
  }

  /** Sound apart from child `i`, which is not looked at. */
  ghost function CheckRest(s: Shape, i: int): Health
    requires HasChild(s, i)
    reads Rest(s, i)
  {
    if DistinctRest(s, i) && LinkedRest(s, i) then Sound else Unsound
  }

  /** Taking a child out ... */
  lemma TakeChildOut(s: Shape, i: int)
    requires HasChild(s, i)
    ensures T.HasChild(Value(s), i) && Value(Child(s, i)) == T.Child(Value(s), i)
    ensures Repr(s) == Rest(s, i) + Repr(Child(s, i)) && s.node in Rest(s, i)
    ensures Check(s).Sound? <==>
              CheckRest(s, i).Sound? && Check(Child(s, i)).Sound? && Rest(s, i) !! Repr(Child(s, i))
    ensures CheckRest(s, i).Sound? ==> |s.node.childs| == 3 && s.node.childs[i] == Root(Child(s, i))
  {}

  /** ... and putting another one with the same top in. */
  lemma PutChildIn(s: Shape, i: int, c: Shape)
    requires HasChild(s, i)
    ensures T.HasChild(Value(s), i) && Value(WithChild(s, i, c)) == T.WithChild(Value(s), i, Value(c))
    ensures HasChild(WithChild(s, i, c), i) && Child(WithChild(s, i, c), i) == c
    ensures Repr(WithChild(s, i, c)) == Rest(s, i) + Repr(c)
    ensures CheckRest(s, i).Sound? && Check(c).Sound? && Rest(s, i) !! Repr(c) && Root(c) == Root(Child(s, i)) ==>
              Check(WithChild(s, i, c)).Sound?
  {}

  /** A child that is a node: its fields fit, and it is neither its parent nor a sibling. */
  lemma ChildFits(s: Shape, i: int)
    requires HasChild(s, i) && Check(s).Sound? && !Child(s, i).Nil?
    ensures Fits(s) && Fits(Child(s, i)) && s.node.childs[i] == Child(s, i).node != s.node
    ensures Check(Child(s, i)).Sound? && s.node !in Repr(Child(s, i))
    ensures forall j :: HasChild(s, j) && j != i ==> Repr(Child(s, j)) !! Repr(Child(s, i))
  {
    assert Linked(Child(s, i));
  }

  /** A node over sound children that share nothing. */
  lemma Assemble(s: Shape)
    ensures s.One? && Fits(s) && Check(s.l).Sound? && Check(s.r).Sound? && {s.node} !! Repr(s.l) !! Repr(s.r) ==>
              Check(s).Sound?
    ensures s.Two? && Fits(s) && Check(s.l).Sound? && Check(s.m).Sound? && Check(s.r).Sound?
            && {s.node} !! Repr(s.l) !! Repr(s.m) !! Repr(s.r) ==>
              Check(s).Sound?
    ensures s.Under? && Fits(s) && Check(s.c).Sound? && s.node !in Repr(s.c) ==> Check(s).Sound?
  {}
}
