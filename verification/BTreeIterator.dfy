/** Iterators over linked 2-3 tree nodes (containers/btree.c:84-137, 501-607). */
module BTreeIterator {
  import opened Checks
  import opened Options
  import opened Ordering
  import opened Pairs
  import opened BTreeNode
  import T = TwoThree
  import E = TwoThreeErase
  import W = WaysDown

  /** The array of track entries in an iterator has this many slots. */
  const TRACK_SLOTS := 100

  /** One entry of the track: the walk left `parent` through its child number `childno`. */
  datatype Step = Step(parent: Node, childno: int)

  /** A node, one of its pairs, and the way from the root to the node; `top` is the number of
      entries in use. */
  datatype Iterator = Iterator(node: Node?, which: int, track: seq<Step>)

  const INVALID := Iterator(null, 0, [])

  // ---------- where a track leads ----------

  /** Every entry of the track is a true step down from `s`. */
  predicate Leads(s: Shape, track: seq<Step>)
    decreases |track|
  {
    track != [] ==>
      && HasChild(s, track[0].childno) && track[0].parent == s.node
      && Leads(Child(s, track[0].childno), track[1..])
  }

  function Target(s: Shape, track: seq<Step>): Shape
    requires Leads(s, track)
    decreases |track|
  {
    if track == [] then s else Target(Child(s, track[0].childno), track[1..])
  }

  function Flat(cmp: Comparator, s: Shape): seq<Pair> {
    T.Flat(cmp, Value(s))
  }

  /** The pairs to the left of child `i`. */
  function Before(cmp: Comparator, s: Shape, i: int): nat
    requires HasChild(s, i)
  {
    ValueChild(s, i);
    |T.Left(cmp, Value(s), i)|
  }

  lemma ValueChild(s: Shape, i: int)
    requires HasChild(s, i)
    ensures T.HasChild(Value(s), i) && T.Child(Value(s), i) == Value(Child(s, i))
  {}

  /** The number of pairs of `s` before the subtree the track leads to. */
  function Offset(cmp: Comparator, s: Shape, track: seq<Step>): nat
    requires Leads(s, track)
    decreases |track|
  {
    if track == [] then 0
    else Before(cmp, s, track[0].childno) + Offset(cmp, Child(s, track[0].childno), track[1..])
  }

  /** The position of pair `w` among the pairs of its node's tree. */
  function PairIndex(cmp: Comparator, t: Shape, w: int): nat
    requires 0 <= w && HasChild(t, w + 1)
  {
    Before(cmp, t, w) + |Flat(cmp, Child(t, w))|
  }

  /** The iterator stands on pair number `i` of `s`, and its track is the way there. */
  ghost predicate Standing(cmp: Comparator, s: Shape, it: Iterator, i: int) {
    && it.node != null && Leads(s, it.track)
    && var t := Target(s, it.track);
       && !t.Nil? && t.node == it.node && 0 <= it.which && HasChild(t, it.which + 1)
       && i == Offset(cmp, s, it.track) + PairIndex(cmp, t, it.which)
  }

  /** One step further down. */
  lemma {:induction false} Extend(cmp: Comparator, s: Shape, track: seq<Step>, i: int)
    requires Leads(s, track) && HasChild(Target(s, track), i)
    ensures var t := Target(s, track);
            var u := track + [Step(t.node, i)];
            && Leads(s, u) && Target(s, u) == Child(t, i)
            && Offset(cmp, s, u) == Offset(cmp, s, track) + Before(cmp, t, i)
    decreases |track|
  {
    var u := track + [Step(Target(s, track).node, i)];
    if track == [] {
      assert u[1..] == [];
    } else {
      Extend(cmp, Child(s, track[0].childno), track[1..], i);
      assert u[1..] == track[1..] + [Step(Target(s, track).node, i)];
    }
  }

  /** One step back up. */
  lemma {:induction false} Retract(cmp: Comparator, s: Shape, track: seq<Step>)
    requires Leads(s, track) && track != []
    ensures var (up, last) := (track[..|track| - 1], track[|track| - 1]);
            && Leads(s, up)
            && var t := Target(s, up);
               && HasChild(t, last.childno) && last.parent == t.node && Target(s, track) == Child(t, last.childno)
               && Offset(cmp, s, track) == Offset(cmp, s, up) + Before(cmp, t, last.childno)
    decreases |track|
  {
    var up := track[..|track| - 1];
    if |track| > 1 {
      Retract(cmp, Child(s, track[0].childno), track[1..]);
      assert up[1..] == track[1..][..|track[1..]| - 1];
    } else {
      assert track[1..] == [] && up == [];
    }
  }

  /** The subtree a track leads to is sound, and its height is what is left of the height. */
  lemma {:induction false} TargetFull(s: Shape, track: seq<Step>, h: nat)
    requires Leads(s, track) && T.Full(Value(s), h)
    ensures |track| <= h && T.Full(Value(Target(s, track)), h - |track|)
    decreases |track|
  {
    if track != [] {
      ValueChild(s, track[0].childno);
      T.FullChild(Value(s), h, track[0].childno, T.Nil);
      TargetFull(Child(s, track[0].childno), track[1..], h - 1);
    }
  }

  lemma {:induction false} TargetSound(s: Shape, track: seq<Step>)
    requires Leads(s, track) && Check(s).Sound?
    ensures Check(Target(s, track)).Sound?
    decreases |track|
  {
    if track != [] {
      TakeChildOut(s, track[0].childno);
      TargetSound(Child(s, track[0].childno), track[1..]);
    }
  }

  lemma StretchInside<X>(a: seq<X>, m: seq<X>, b: seq<X>, o: nat, n: nat)
    requires o + n <= |m|
    ensures (a + m + b)[|a| + o..|a| + o + n] == m[o..o + n]
  {}

  lemma PairByIndex(cmp: Comparator, t: Shape, w: int)
    requires 0 <= w && HasChild(t, w + 1)
    ensures PairIndex(cmp, t, w) < |Flat(cmp, t)|
    ensures Flat(cmp, t)[PairIndex(cmp, t, w)] == if w == 0 then t.p else t.q
    ensures PairIndex(cmp, t, w) + 1 == Before(cmp, t, w + 1)
  {
    ValueChild(t, w);
    ValueChild(t, w + 1);
    E.PairAround(cmp, Value(t), w);
  }

  /** The pairs of the target are a stretch of all the pairs. */
  lemma {:induction false} TargetStretch(cmp: Comparator, s: Shape, track: seq<Step>)
    requires Leads(s, track)
    ensures var (o, f) := (Offset(cmp, s, track), Flat(cmp, Target(s, track)));
            o + |f| <= |Flat(cmp, s)| && Flat(cmp, s)[o..o + |f|] == f
    decreases |track|
  {
    if track != [] {
      var c := track[0].childno;
      ValueChild(s, c);
      T.ChildAround(cmp, Value(s), c);
      TargetStretch(cmp, Child(s, c), track[1..]);
      StretchInside(T.Left(cmp, Value(s), c), Flat(cmp, Child(s, c)), T.Right(cmp, Value(s), c),
                    Offset(cmp, Child(s, c), track[1..]), |Flat(cmp, Target(s, track))|);
    }
  }

  /** The pairs of the node at the end of a track, found by their number. */
  lemma PairAtTarget(cmp: Comparator, s: Shape, track: seq<Step>, w: int) returns (i: nat)
    requires Leads(s, track) && 0 <= w && HasChild(Target(s, track), w + 1)
    ensures i == Offset(cmp, s, track) + PairIndex(cmp, Target(s, track), w)
    ensures i < |Flat(cmp, s)| && Flat(cmp, s)[i] == if w == 0 then Target(s, track).p else Target(s, track).q
  {
    var k := PairIndex(cmp, Target(s, track), w);
    PairByIndex(cmp, Target(s, track), w);
    i := TargetIndex(cmp, s, track, k);
  }

  lemma TargetIndex(cmp: Comparator, s: Shape, track: seq<Step>, k: nat) returns (i: nat)
    requires Leads(s, track) && k < |Flat(cmp, Target(s, track))|
    ensures i == Offset(cmp, s, track) + k && i < |Flat(cmp, s)| && Flat(cmp, s)[i] == Flat(cmp, Target(s, track))[k]
  {
    i := Offset(cmp, s, track) + k;
    TargetStretch(cmp, s, track);
    StretchIndex(Flat(cmp, s), Offset(cmp, s, track), Flat(cmp, Target(s, track)), k);
  }

  lemma StretchIndex<X>(all: seq<X>, o: nat, part: seq<X>, k: nat)
    requires o + |part| <= |all| && all[o..o + |part|] == part && k < |part|
    ensures all[o + k] == part[k]
  {
    assert all[o..o + |part|][k] == all[o + k];
  }

  /** A standing iterator gives the pair with its number. */
  lemma StandingGives(cmp: Comparator, s: Shape, it: Iterator, i: int)
    requires Standing(cmp, s, it, i) && Check(s).Sound?
    ensures 0 <= i < |Flat(cmp, s)| && |it.node.kv| == 2 && it.which < 2
    ensures it.node.kv[it.which] == Some(Flat(cmp, s)[i])
  {
    TargetSound(s, it.track);
    var j := PairAtTarget(cmp, s, it.track, it.which);
    assert Linked(Target(s, it.track)) && Fits(Target(s, it.track));
  }

  // ---------- a number has one iterator ----------

  /** The stretches that an iterator's first step can put it in do not overlap. */
  lemma Stretches(cmp: Comparator, s: Shape, i: int, j: int)
    requires HasChild(s, i) && HasChild(s, j) && i < j
    ensures Before(cmp, s, i) + |Flat(cmp, Child(s, i))| < Before(cmp, s, j)
  {
    ValueChild(s, i);
    ValueChild(s, j);
  }

  lemma StandingRange(cmp: Comparator, s: Shape, it: Iterator, i: int)
    requires Standing(cmp, s, it, i)
    ensures 0 <= i < |Flat(cmp, s)|
  {
    TargetStretch(cmp, s, it.track);
    PairByIndex(cmp, Target(s, it.track), it.which);
  }

  /** The iterator without its first step stands in the child. */
  lemma StandingBelow(cmp: Comparator, s: Shape, it: Iterator, i: int)
    requires Standing(cmp, s, it, i) && it.track != []
    ensures var c := it.track[0].childno;
            Standing(cmp, Child(s, c), it.(track := it.track[1..]), i - Before(cmp, s, c))
  {}

  /** A place in the tree has one iterator. */
  lemma {:induction false} StandingUnique(cmp: Comparator, s: Shape, a: Iterator, b: Iterator, i: int)
    requires Standing(cmp, s, a, i) && Standing(cmp, s, b, i)
    ensures a == b
    decreases |a.track|
  {
    SameStep(cmp, s, a, b, i);
    if a.track != [] {
      var c := a.track[0].childno;
      StandingBelow(cmp, s, a, i);
      StandingBelow(cmp, s, b, i);
      StandingUnique(cmp, Child(s, c), a.(track := a.track[1..]), b.(track := b.track[1..]), i - Before(cmp, s, c));
      assert a.track == [a.track[0]] + a.track[1..] && b.track == [b.track[0]] + b.track[1..];
    }
  }

  /** Two iterators on the same place start with the same step, or stand on the same pair. */
  lemma SameStep(cmp: Comparator, s: Shape, a: Iterator, b: Iterator, i: int)
    requires Standing(cmp, s, a, i) && Standing(cmp, s, b, i)
    ensures if a.track == [] then a == b else b.track != [] && a.track[0] == b.track[0]
  {
    var x := if a.track == [] then a.which else a.track[0].childno;
    var y := if b.track == [] then b.which else b.track[0].childno;
    FirstStretch(cmp, s, a, i);
    FirstStretch(cmp, s, b, i);
    if x < y { Stretches(cmp, s, x, y); }
    if y < x { Stretches(cmp, s, y, x); }
  }

  /** An iterator on a pair of the top node stands right after child `which`, one further
      down stands inside the child it went to. */
  lemma FirstStretch(cmp: Comparator, s: Shape, it: Iterator, i: int)
    requires Standing(cmp, s, it, i)
    ensures it.track == [] ==> HasChild(s, it.which) && i == Before(cmp, s, it.which) + |Flat(cmp, Child(s, it.which))|
    ensures it.track != [] ==>
              var c := it.track[0].childno;
              HasChild(s, c) && Before(cmp, s, c) <= i < Before(cmp, s, c) + |Flat(cmp, Child(s, c))|
  {
    if it.track != [] {
      StandingBelow(cmp, s, it, i);
      var c := it.track[0].childno;
      StandingRange(cmp, Child(s, c), it.(track := it.track[1..]), i - Before(cmp, s, c));
    }
  }

  // ---------- walking ----------

  /** What every walk starts from: a sound proper tree that fits into the track. */
  ghost predicate Walkable(s: Shape, h: nat)
    reads Repr(s)
  {
    Check(s).Sound? && T.Full(Value(s), h) && h <= TRACK_SLOTS
  }

  /** The node at the end of a track: its fields, and its children by height. */
  lemma AtTarget(s: Shape, track: seq<Step>, h: nat)
    requires Walkable(s, h) && Leads(s, track) && !Target(s, track).Nil?
    ensures var t := Target(s, track);
            && |track| < h && (t.One? || t.Two?) && Fits(t)
            && (forall i :: HasChild(t, i) ==> (Child(t, i).Nil? <==> |track| + 1 == h))
  {
    var t := Target(s, track);
    TargetSound(s, track);
    TargetFull(s, track, h);
    assert Linked(t);
    forall i | HasChild(t, i) ensures Child(t, i).Nil? <==> |track| + 1 == h {
      ValueChild(t, i);
      T.FullChild(Value(t), h - |track|, i, T.Nil);
    }
  }

  lemma LeftEnd(cmp: Comparator, t: Shape)
    requires HasChild(t, 0)
    ensures Before(cmp, t, 0) == 0 && (t.l.Nil? ==> PairIndex(cmp, t, 0) == 0)
  {}

  function LastPair(t: Shape): int {
    if t.Two? then 1 else 0
  }

  lemma RightEnd(cmp: Comparator, t: Shape)
    requires HasChild(t, LastPair(t) + 1)
    ensures |Flat(cmp, t)| == Before(cmp, t, LastPair(t) + 1) + |Flat(cmp, Child(t, LastPair(t) + 1))|
  {
    ValueChild(t, LastPair(t) + 1);
    T.ChildAround(cmp, Value(t), LastPair(t) + 1);
  }

  /** The iterator's node is where its track leads. */
  ghost predicate Reaches(s: Shape, it: Iterator) {
    Leads(s, it.track) && !Target(s, it.track).Nil? && it.node == Target(s, it.track).node
  }

  /** Pushes one entry and moves down to child `i`. */
  function Push(it: Iterator, i: nat): Iterator
    requires it.node != null && i < |it.node.childs|
    reads it.node
  {
    Iterator(it.node.childs[i], 0, it.track + [Step(it.node, i)])
  }

  /** There is room for the entry, and the track still leads to the iterator's node. */
  lemma PushReaches(cmp: Comparator, s: Shape, it: Iterator, i: nat, h: nat)
    requires Walkable(s, h) && Reaches(s, it) && HasChild(Target(s, it.track), i)
    requires it.node != null && i < |it.node.childs| && it.node.childs[i] != null
    ensures var u := Push(it, i);
            && |it.track| < TRACK_SLOTS && |u.track| < h && Reaches(s, u)
            && Target(s, u.track) == Child(Target(s, it.track), i)
            && Offset(cmp, s, u.track) == Offset(cmp, s, it.track) + Before(cmp, Target(s, it.track), i)
  {
    AtTarget(s, it.track, h);
    Extend(cmp, s, it.track, i);
    AtTarget(s, Push(it, i).track, h);
  }

  /** Descends along `childs[0]`. */
  method GoLeftmost(cmp: Comparator, start: Iterator, ghost s: Shape, ghost h: nat) returns (it: Iterator)
    requires Walkable(s, h) && Reaches(s, start) && start.which == 0
    ensures Standing(cmp, s, it, Offset(cmp, s, start.track))
  {
    it := start;
    ghost var t := Target(s, it.track);
    AtTarget(s, it.track, h);
    while it.node.childs[0] != null
      invariant Walkable(s, h) && Reaches(s, it) && it.which == 0
      invariant t == Target(s, it.track) && HasChild(t, 0) && Fits(t)
      invariant Offset(cmp, s, it.track) == Offset(cmp, s, start.track)
      decreases t
    {
      LeftEnd(cmp, t);
      PushReaches(cmp, s, it, 0, h);
      assert |it.track| < TRACK_SLOTS;
      it, t := Push(it, 0), t.l;
      AtTarget(s, it.track, h);
    }
    LeftEnd(cmp, t);
  }

  /** The last pair of a node. */
  function LastOf(n: Node): nat
    requires |n.kv| == 2
    reads n
  {
    if n.kv[1].None? then 0 else 1
  }

  /** What the rightmost walk finds at a node. */
  lemma RightNode(cmp: Comparator, s: Shape, it: Iterator, h: nat)
    requires Walkable(s, h) && Reaches(s, it) && |it.node.kv| == 2 ==> it.which == LastOf(it.node)
    ensures Walkable(s, h) && Reaches(s, it) ==>
              var t := Target(s, it.track);
              && |it.node.kv| == 2 && |it.node.childs| == 3 && 0 <= it.which < 2 && HasChild(t, it.which + 1)
              && it.node.childs[it.which + 1] == Root(Child(t, it.which + 1))
              && |Flat(cmp, t)| == Before(cmp, t, it.which + 1) + |Flat(cmp, Child(t, it.which + 1))|
              && (Child(t, it.which + 1).Nil? ==> Standing(cmp, s, it, Offset(cmp, s, it.track) + |Flat(cmp, t)| - 1))
  {
    if Walkable(s, h) && Reaches(s, it) {
      var t := Target(s, it.track);
      AtTarget(s, it.track, h);
      RightEnd(cmp, t);
      PairByIndex(cmp, t, it.which);
    }
  }

  /** Pushes one entry, moves down to the last child and to its last pair. */
  function PushLast(it: Iterator): Iterator
    requires it.node != null && |it.node.childs| == 3 && 0 <= it.which < 2
    requires var c := it.node.childs[it.which + 1]; c != null && |c.kv| == 2
    reads it.node, it.node.childs[it.which + 1]
  {
    var c := it.node.childs[it.which + 1];
    Iterator(c, LastOf(c), it.track + [Step(it.node, it.which + 1)])
  }

  /** At the right end of the tree's first `e` pairs. */
  ghost predicate AtRight(cmp: Comparator, s: Shape, it: Iterator, e: int)
    reads it.node
  {
    && Reaches(s, it) && |it.node.kv| == 2 && it.which == LastOf(it.node) && |it.node.childs| == 3
    && Offset(cmp, s, it.track) + |Flat(cmp, Target(s, it.track))| == e
  }

  /** One step of the rightmost walk stays at the right end. */
  lemma RightStep(cmp: Comparator, s: Shape, it: Iterator, h: nat, e: int)
    requires Walkable(s, h) && AtRight(cmp, s, it, e) && it.node.childs[it.which + 1] != null
    ensures |it.node.childs[it.which + 1].kv| == 2 && |it.track| < TRACK_SLOTS
    ensures |PushLast(it).track| < h && AtRight(cmp, s, PushLast(it), e)
  {
    RightNode(cmp, s, it, h);
    var u := Push(it, it.which + 1);
    PushReaches(cmp, s, it, it.which + 1, h);
    AtTarget(s, u.track, h);
    assert PushLast(it) == u.(which := LastOf(u.node));
  }

  lemma RightStop(cmp: Comparator, s: Shape, it: Iterator, h: nat, e: int)
    requires Walkable(s, h) && AtRight(cmp, s, it, e) && it.node.childs[it.which + 1] == null
    ensures Standing(cmp, s, it, e - 1)
  {
    RightNode(cmp, s, it, h);
  }

  /** Descends along the last child. */
  method GoRightmost(cmp: Comparator, start: Iterator, ghost s: Shape, ghost h: nat) returns (it: Iterator)
    requires Walkable(s, h) && Reaches(s, start)
    ensures Standing(cmp, s, it, Offset(cmp, s, start.track) + |Flat(cmp, Target(s, start.track))| - 1)
  {
    ghost var e := Offset(cmp, s, start.track) + |Flat(cmp, Target(s, start.track))|;
    AtTarget(s, start.track, h);
    it := start.(which := LastOf(start.node));
    while it.node.childs[it.which + 1] != null
      invariant Walkable(s, h) && AtRight(cmp, s, it, e) && |it.track| < h
      decreases h - |it.track|
    {
      RightStep(cmp, s, it, h, e);
      it := PushLast(it);
    }
    RightStop(cmp, s, it, h, e);
  }

  lemma EmptyTrack(cmp: Comparator, s: Shape)
    ensures Leads(s, []) && Target(s, []) == s && Offset(cmp, s, []) == 0
  {}

  method Begin(cmp: Comparator, root: Node?, ghost s: Shape, ghost h: nat) returns (it: Iterator)
    requires Walkable(s, h) && root == Root(s)
    ensures if s.Nil? then it == INVALID else Standing(cmp, s, it, 0)
  {
    it := Iterator(root, 0, []);
    if root == null {
      return INVALID;
    }
    EmptyTrack(cmp, s);
    it := GoLeftmost(cmp, it, s, h);
  }

  method End(cmp: Comparator, root: Node?, ghost s: Shape, ghost h: nat) returns (it: Iterator)
    requires Walkable(s, h) && root == Root(s)
    ensures if s.Nil? then it == INVALID else Standing(cmp, s, it, |Flat(cmp, s)| - 1)
  {
    it := Iterator(root, 0, []);
    if root == null {
      return INVALID;
    }
    EmptyTrack(cmp, s);
    it := GoRightmost(cmp, it, s, h);
  }

  /** Pops entries that came from a last child; what is left stands on the pair after the
      subtree, if there is one. */
  method ClimbForward(cmp: Comparator, it: Iterator, ghost s: Shape, ghost h: nat, ghost i: int)
    returns (next: Iterator)
    requires Walkable(s, h) && Leads(s, it.track)
    requires i + 1 == Offset(cmp, s, it.track) + |Flat(cmp, Target(s, it.track))|
    ensures if i + 1 < |Flat(cmp, s)| then Standing(cmp, s, next, i + 1) else next == INVALID
  {
    var track := it.track;
    if track != [] { Climb(cmp, s, track, h); }
    while track != [] && (track[|track| - 1].childno == 2 ||
                          track[|track| - 1].parent.kv[track[|track| - 1].childno].None?)
      invariant Walkable(s, h) && Leads(s, track)
      invariant i + 1 == Offset(cmp, s, track) + |Flat(cmp, Target(s, track))|
      invariant track != [] ==> var e := track[|track| - 1]; |e.parent.kv| == 2 && 0 <= e.childno <= 2
      decreases |track|
    {
      Climb(cmp, s, track, h);
      track := track[..|track| - 1];
      if track != [] { Climb(cmp, s, track, h); }
    }
    if track == [] {
      EmptyTrack(cmp, s);
      return INVALID;
    }
    Climb(cmp, s, track, h);
    var e := track[|track| - 1];
    next := Iterator(e.parent, e.childno, track[..|track| - 1]);
    StandingRange(cmp, s, next, i + 1);
  }

  /** The last entry of a track, seen from its parent. */
  lemma Climb(cmp: Comparator, s: Shape, track: seq<Step>, h: nat)
    requires Walkable(s, h) && Leads(s, track) && track != []
    ensures var (up, e) := (track[..|track| - 1], track[|track| - 1]);
            && Leads(s, up) && |e.parent.kv| == 2
            && var t := Target(s, up);
               && HasChild(t, e.childno) && e.parent == t.node && Target(s, track) == Child(t, e.childno)
               && Offset(cmp, s, track) == Offset(cmp, s, up) + Before(cmp, t, e.childno)
               // coming from the last child: nothing follows in the parent
               && (!HasChild(t, e.childno + 1) <==> e.childno == 2 || e.parent.kv[e.childno].None?)
               && (!HasChild(t, e.childno + 1) ==>
                     |Flat(cmp, t)| == Before(cmp, t, e.childno) + |Flat(cmp, Child(t, e.childno))|)
  {
    Retract(cmp, s, track);
    var (up, e) := (track[..|track| - 1], track[|track| - 1]);
    var t := Target(s, up);
    AtTarget(s, up, h);
    if !HasChild(t, e.childno + 1) {
      assert e.childno == LastPair(t) + 1;
      RightEnd(cmp, t);
    }
  }

  /** Pops entries that came from child 0; what is left stands on the pair before the
      subtree, if there is one. */
  method ClimbBackward(cmp: Comparator, it: Iterator, ghost s: Shape, ghost h: nat, ghost i: int)
    returns (prev: Iterator)
    requires Walkable(s, h) && Leads(s, it.track) && i == Offset(cmp, s, it.track)
    ensures if 0 < i then Standing(cmp, s, prev, i - 1) else prev == INVALID
  {
    var track := it.track;
    if track != [] { Climb(cmp, s, track, h); }
    while track != [] && track[|track| - 1].childno == 0
      invariant Walkable(s, h) && Leads(s, track)
      invariant i == Offset(cmp, s, track)
      decreases |track|
    {
      Climb(cmp, s, track, h);
      LeftEnd(cmp, Target(s, track[..|track| - 1]));
      track := track[..|track| - 1];
    }
    if track == [] {
      EmptyTrack(cmp, s);
      return INVALID;
    }
    Climb(cmp, s, track, h);
    var e := track[|track| - 1];
    prev := Iterator(e.parent, e.childno - 1, track[..|track| - 1]);
    PairByIndex(cmp, Target(s, prev.track), prev.which);
    StandingRange(cmp, s, prev, i - 1);
  }

  /** A standing iterator, seen from its node. */
  lemma StandingNode(cmp: Comparator, s: Shape, it: Iterator, i: int, h: nat)
    requires Walkable(s, h) && Standing(cmp, s, it, i)
    ensures Reaches(s, it) && |it.node.kv| == 2 && |it.node.childs| == 3 && 0 <= it.which < 2
    ensures var t := Target(s, it.track);
            && HasChild(t, it.which) && HasChild(t, it.which + 1)
            && it.node.childs[it.which] == Root(Child(t, it.which))
            && it.node.childs[it.which + 1] == Root(Child(t, it.which + 1))
            && (Child(t, it.which).Nil? <==> Child(t, it.which + 1).Nil?)
            && (HasChild(t, it.which + 2) <==> it.which == 0 && it.node.kv[1].Some?)
            && i + 1 == Offset(cmp, s, it.track) + Before(cmp, t, it.which + 1)
            && i == Offset(cmp, s, it.track) + Before(cmp, t, it.which) + |Flat(cmp, Child(t, it.which))|
            && (!HasChild(t, it.which + 2) ==>
                  |Flat(cmp, t)| == Before(cmp, t, it.which + 1) + |Flat(cmp, Child(t, it.which + 1))|)
            && (it.which == 0 ==> Before(cmp, t, 0) == 0)
  {
    var t := Target(s, it.track);
    AtTarget(s, it.track, h);
    PairByIndex(cmp, t, it.which);
    LeftEnd(cmp, t);
    if !HasChild(t, it.which + 2) { RightEnd(cmp, t); }
  }

  lemma OtherPair(cmp: Comparator, s: Shape, it: Iterator, i: int, h: nat)
    requires Walkable(s, h) && Standing(cmp, s, it, i) && Child(Target(s, it.track), it.which).Nil?
    ensures it.which == 0 && |it.node.kv| == 2 && it.node.kv[1].Some? ==> Standing(cmp, s, it.(which := 1), i + 1)
    ensures it.which == 1 ==> Standing(cmp, s, it.(which := 0), i - 1)
  {
    var t := Target(s, it.track);
    StandingNode(cmp, s, it, i, h);
    AtTarget(s, it.track, h);
    if t.Two? {
      PairByIndex(cmp, t, 0);
      PairByIndex(cmp, t, 1);
    }
  }

  /** The iterator after `it`: it stands on the next pair, or is invalid when there is none. */
  method Next(cmp: Comparator, it: Iterator, ghost s: Shape, ghost h: nat, ghost i: int) returns (next: Iterator)
    requires Walkable(s, h) && Standing(cmp, s, it, i)
    ensures if i + 1 < |Flat(cmp, s)| then Standing(cmp, s, next, i + 1) else next == INVALID
  {
    StandingNode(cmp, s, it, i, h);
    if it.node.childs[it.which + 1] == null {
      OtherPair(cmp, s, it, i, h);
      if it.which == 0 && it.node.kv[1].Some? {
        next := it.(which := 1);
        StandingRange(cmp, s, next, i + 1);
        return;
      }
      next := ClimbForward(cmp, it, s, h, i);
      return;
    }
    PushReaches(cmp, s, it, it.which + 1, h);
    next := GoLeftmost(cmp, Push(it, it.which + 1), s, h);
    StandingRange(cmp, s, next, i + 1);
  }

  /** The iterator before `it`. */
  method Prev(cmp: Comparator, it: Iterator, ghost s: Shape, ghost h: nat, ghost i: int) returns (prev: Iterator)
    requires Walkable(s, h) && Standing(cmp, s, it, i)
    ensures if 0 < i then Standing(cmp, s, prev, i - 1) else prev == INVALID
  {
    StandingNode(cmp, s, it, i, h);
    if it.node.childs[it.which] == null {
      OtherPair(cmp, s, it, i, h);
      if it.which == 1 {
        prev := it.(which := 0);
        StandingRange(cmp, s, prev, i - 1);
        return;
      }
      prev := ClimbBackward(cmp, it, s, h, i);
      return;
    }
    PushReaches(cmp, s, it, it.which, h);
    prev := GoRightmost(cmp, Push(it, it.which), s, h);
    StandingRange(cmp, s, prev, i - 1);
  }

  // ---------- search (containers/btree.c:84-137) ----------

  /** Every step of the track is the one that the comparisons with `k` ask for. */
  predicate Along(cmp: Comparator, s: Shape, k: Blob, track: seq<Step>)
    requires Leads(s, track)
    decreases |track|
  {
    track != [] ==>
      var c := track[0].childno;
      ValueChild(s, c);
      W.Sends(cmp, Value(s), k, c) && Along(cmp, Child(s, c), k, track[1..])
  }

  lemma {:induction false} AlongFurther(cmp: Comparator, s: Shape, k: Blob, track: seq<Step>, i: int)
    requires Leads(s, track) && HasChild(Target(s, track), i) && T.HasChild(Value(Target(s, track)), i)
    ensures var u := track + [Step(Target(s, track).node, i)];
            && Leads(s, u)
            && (Along(cmp, s, k, u) <==> Along(cmp, s, k, track) && W.Sends(cmp, Value(Target(s, track)), k, i))
    decreases |track|
  {
    var u := track + [Step(Target(s, track).node, i)];
    Extend(cmp, s, track, i);
    if track == [] {
      assert u[1..] == [];
    } else {
      AlongFurther(cmp, Child(s, track[0].childno), k, track[1..], i);
      assert u[1..] == track[1..] + [Step(Target(s, track).node, i)];
    }
  }

  /** The comparisons with `k` lead along the iterator's track and stop at its pair. */
  ghost predicate Answers(cmp: Comparator, s: Shape, it: Iterator, k: Blob) {
    && Leads(s, it.track) && 0 <= it.which && HasChild(Target(s, it.track), it.which + 1)
    && Along(cmp, s, k, it.track)
    && T.HasChild(Value(Target(s, it.track)), it.which + 1)
    && W.Stops(cmp, Value(Target(s, it.track)), k, it.which)
  }

  lemma AnswersBelow(cmp: Comparator, s: Shape, it: Iterator, k: Blob)
    requires Leads(s, it.track) && it.track != []
    ensures var c := it.track[0].childno;
            && T.HasChild(Value(s), c)
            && (Answers(cmp, s, it, k) <==>
                  W.Sends(cmp, Value(s), k, c) && Answers(cmp, Child(s, c), it.(track := it.track[1..]), k))
  {
    ValueChild(s, it.track[0].childno);
  }

  /** A pair is found by a key exactly if the comparisons with it lead along the pair's track. */
  lemma {:induction false} LedAlongTrack(cmp: Comparator, s: Shape, it: Iterator, i: int, k: Blob)
    requires Standing(cmp, s, it, i)
    ensures W.Led(cmp, Value(s), k, i) <==> Answers(cmp, s, it, k)
    decreases |it.track|
  {
    if it.track == [] {
      ValueChild(s, it.which + 1);
      W.LedToPair(cmp, Value(s), k, it.which);
    } else {
      var c, below := it.track[0].childno, it.(track := it.track[1..]);
      ValueChild(s, c);
      StandingBelow(cmp, s, it, i);
      StandingRange(cmp, Child(s, c), below, i - Before(cmp, s, c));
      W.LedIntoChild(cmp, Value(s), k, c, i - Before(cmp, s, c));
      AnswersBelow(cmp, s, it, k);
      LedAlongTrack(cmp, Child(s, c), below, i - Before(cmp, s, c), k);
    }
  }

  /** The iterator stands on the pair that the comparisons with the key lead to. */
  ghost predicate Found(cmp: Comparator, s: Shape, it: Iterator, key: Blob) {
    Reaches(s, it) && Answers(cmp, s, it, key)
  }

  lemma FoundStands(cmp: Comparator, s: Shape, it: Iterator, key: Blob) returns (i: nat)
    requires Found(cmp, s, it, key)
    ensures i < |Flat(cmp, s)| && Standing(cmp, s, it, i) && cmp(key, Flat(cmp, s)[i].key) == 0
    ensures W.Led(cmp, Value(s), key, i)
  {
    i := PairAtTarget(cmp, s, it.track, it.which);
    LedAlongTrack(cmp, s, it, i, key);
  }

  /** Follows the comparator down from the end of the track. */
  method RecursiveSearch(cmp: Comparator, root: Node?, lastit: Iterator, key: Blob, ghost s: Shape, ghost h: nat)
    returns (status: int, it: Iterator)
    requires Walkable(s, h) && Leads(s, lastit.track) && root == Root(Target(s, lastit.track))
    requires Along(cmp, s, key, lastit.track)
    ensures status == (if T.Finds(cmp, Value(Target(s, lastit.track)), key) then 0 else -1)
    ensures if status == 0 then Found(cmp, s, it, key) else it == INVALID
    decreases Target(s, lastit.track), 1
  {
    if root == null {
      return -1, INVALID;
    }
    ghost var t := Target(s, lastit.track);
    AtTarget(s, lastit.track, h);
    var firstcmp := cmp(key, root.kv[0].value.key);
    if firstcmp == 0 {
      return 0, Iterator(root, 0, lastit.track);
    }
    if firstcmp < 0 {
      status, it := SearchBelow(cmp, root, lastit, 0, key, s, h);
      return;
    }
    if root.kv[1].None? {
      assert t.One? && T.Route(cmp, Value(t), key) == 1;
      if root.childs[1] != null {
        status, it := SearchBelow(cmp, root, lastit, 1, key, s, h);
        return;
      }
      ValueChild(t, 1);
      assert Child(t, 1).Nil?;
      return -1, INVALID;
    }
    var secondcmp := cmp(key, root.kv[1].value.key);
    if secondcmp == 0 {
      return 0, Iterator(root, 1, lastit.track);
    }
    if secondcmp < 0 {
      status, it := SearchBelow(cmp, root, lastit, 1, key, s, h);
      return;
    }
    status, it := SearchBelow(cmp, root, lastit, 2, key, s, h);
  }

  method SearchBelow(cmp: Comparator, root: Node, lastit: Iterator, i: nat, key: Blob, ghost s: Shape, ghost h: nat)
    returns (status: int, it: Iterator)
    requires Walkable(s, h) && Leads(s, lastit.track) && root == Root(Target(s, lastit.track))
    requires HasChild(Target(s, lastit.track), i) && T.IsNode(Value(Target(s, lastit.track)))
    requires Along(cmp, s, key, lastit.track)
    requires T.Route(cmp, Value(Target(s, lastit.track)), key) == i
    ensures status == (if T.Finds(cmp, Value(Target(s, lastit.track)), key) then 0 else -1)
    ensures if status == 0 then Found(cmp, s, it, key) else it == INVALID
    decreases Target(s, lastit.track), 0
  {
    ghost var t := Target(s, lastit.track);
    AtTarget(s, lastit.track, h);
    assert |lastit.track| < TRACK_SLOTS;
    Extend(cmp, s, lastit.track, i);
    ValueChild(t, i);
    W.RouteAnswers(cmp, Value(t), key);
    AlongFurther(cmp, s, key, lastit.track, i);
    status, it := RecursiveSearch(cmp, root.childs[i], Iterator(null, 0, lastit.track + [Step(root, i)]), key, s, h);
  }
}
