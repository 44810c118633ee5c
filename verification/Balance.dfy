/** When one operation on the search tree of containers/AVLTree.c keeps it balanced, and when it
    does not. */
module Balance {
  import opened Ordering
  import opened AvlShape
  import opened AvlDeletion

  /** Every balance factor is -1, 0 or 1. */
  predicate Balanced(s: Shape) {
    s.Bin? ==> -1 <= Factor(s) <= 1 && Balanced(s.l) && Balanced(s.r)
  }

  // ---------- left and right exchanged ----------

  function Flip(s: Shape): (t: Shape)
    ensures Height(t) == Height(s)
  {
    if s.Nil? then Nil else Bin(s.node, s.key, Flip(s.r), Flip(s.l))
  }

  lemma {:induction false} FlipTwice(s: Shape)
    ensures Flip(Flip(s)) == s && Factor(Flip(s)) == -Factor(s) && (Balanced(Flip(s)) <==> Balanced(s))
  {
    if s.Bin? {
      FlipTwice(s.l);
      FlipTwice(s.r);
    }
  }

  lemma FlipRotatesLeft(s: Shape)
    ensures CanRotateRight(Flip(s)) <==> CanRotateLeft(s)
    ensures CanRotateLeft(s) ==> Flip(RotateLeft(s)) == RotateRight(Flip(s))
  {
    if s.Bin? { FlipInside(s.r); }
  }

  lemma FlipRotatesRight(s: Shape)
    ensures CanRotateLeft(Flip(s)) <==> CanRotateRight(s)
    ensures CanRotateRight(s) ==> Flip(RotateRight(s)) == RotateLeft(Flip(s))
  {
    FlipTwice(s);
    FlipRotatesLeft(Flip(s));
    if CanRotateRight(s) { FlipTwice(RotateLeft(Flip(s))); }
  }

  lemma FlipInside(x: Shape)
    ensures x.Nil? <==> Flip(x).Nil?
    ensures x.Bin? ==> Flip(x) == Bin(x.node, x.key, Flip(x.r), Flip(x.l))
    ensures x.Bin? && x.l.Bin? ==> Flip(x.l) == Bin(x.l.node, x.l.key, Flip(x.l.r), Flip(x.l.l))
    ensures x.Bin? && x.r.Bin? ==> Flip(x.r) == Bin(x.r.node, x.r.key, Flip(x.r.r), Flip(x.r.l))
  {}

  lemma FlipBalances(s: Shape)
    ensures Flip(RightBalance(s)) == LeftBalance(Flip(s))
  {
    FlipTwice(s);
    FlipRotatesLeft(s);
    if s.Bin? && s.r.Bin? {
      FlipTwice(s.r.l);
      FlipRotatesRight(s.r);
      if RightHeavyInside(s) { FlipRotatesLeft(s.(r := RotateRight(s.r))); }
    }
    if Factor(s) >= 2 {
      LeaningRight(s);
      LeaningLeft(Flip(s));
    }
  }

  // ---------- one repair (containers/AVLTree.c:174-195) ----------

  predicate RepairableLeft(s: Shape) {
    || (Factor(s) == -2 && s.l.Bin? && (Factor(s.l) > 0 <==> LeftHeavyInside(s) || s.l.l.Nil?))
    || (Factor(s) == -3 && Factor(s.l) == if LeftHeavyInside(s) then 1 else -1)
  }

  predicate RepairableRight(s: Shape) {
    || (Factor(s) == 2 && s.r.Bin? && (Factor(s.r) < 0 <==> RightHeavyInside(s) || s.r.r.Nil?))
    || (Factor(s) == 3 && Factor(s.r) == if RightHeavyInside(s) then -1 else 1)
  }

  /** A tree that leans to the left over balanced subtrees is repaired exactly when it leans by
      two and the choice of rotation, which looks at the grandchild, agrees with the child's
      lean (a left child without left subtree is repaired by the "merge" case), or when it leans
      by three and the rotation that is chosen happens to move three levels. */
  lemma LeftRepairExactly(s: Shape)
    requires Factor(s) <= -2 && Balanced(s.l) && Balanced(s.r)
    ensures Balanced(LeftBalance(s)) <==> RepairableLeft(s)
  {
    LeaningLeft(s);
    var t, x := LeftBalance(s), s.l;
    if LeftHeavyInside(s) {
      assert t == Bin(x.r.node, x.r.key, Bin(x.node, x.key, x.l, x.r.l), Bin(s.node, s.key, x.r.r, s.r));
    } else if x.l.Nil? {
      assert Height(x.r) == 1;
    } else {
      assert t == Bin(x.node, x.key, x.l, Bin(s.node, s.key, x.r, s.r));
    }
  }

  lemma FlipRepairable(s: Shape)
    ensures RepairableLeft(Flip(s)) <==> RepairableRight(s)
  {
    FlipTwice(s);
    if s.Bin? && s.r.Bin? {
      FlipTwice(s.r);
      FlipTwice(s.r.l);
    }
  }

  lemma RightRepairExactly(s: Shape)
    requires Factor(s) >= 2 && Balanced(s.l) && Balanced(s.r)
    ensures Balanced(RightBalance(s)) <==> RepairableRight(s)
  {
    FlipBalances(s);
    FlipTwice(s.l);
    FlipTwice(s.r);
    FlipTwice(RightBalance(s));
    FlipRepairable(s);
    FlipTwice(s);
    LeftRepairExactly(Flip(s));
  }

  // ---------- insertion ----------

  /** What an insertion does to the balance.  A tree may come back leaning by two in a way that
      the repair one level up can still make good, or out of balance for good. */
  datatype Verdict = Keeps | LeansLeft | LeansRight | Breaks

  predicate LeaningLeftBy2(t: Shape) {
    Factor(t) == -2 && Balanced(t.l) && Balanced(t.r) && t.r.Bin? && Factor(t.l) == 1
  }

  predicate LeaningRightBy2(t: Shape) {
    Factor(t) == 2 && Balanced(t.l) && Balanced(t.r) && t.l.Bin? && Factor(t.r) == -1
  }

  /** Out of balance in a way that no later repair on the way up makes good. */
  predicate Lost(t: Shape, grown: bool) {
    && t.Bin? && !Balanced(t)
    && if !grown then -1 <= Factor(t) <= 1
       else
         || Factor(t) == 1 || Factor(t) == -1
         || (Factor(t) <= -2 && t.r.Bin? && Factor(t.l) == 1 && !LeaningLeftBy2(t))
         || (Factor(t) >= 2 && t.l.Bin? && Factor(t.r) == -1 && !LeaningRightBy2(t))
  }

  /** `t` is what insertion into the balanced tree `s` may give back. */
  predicate Comes(v: Verdict, s: Shape, grown: bool, t: Shape) {
    && Height(t) == Height(s) + (if grown then 1 else 0)
    && match v
       case Keeps => t.Bin? && Balanced(t) && (grown && s.Bin? ==> Factor(t) != 0)
       case LeansLeft => grown && LeaningLeftBy2(t)
       case LeansRight => grown && LeaningRightBy2(t)
       case Breaks => Lost(t, grown)
  }

  /** What becomes of `s` when its left subtree comes back as `l`. */
  function FromLeft(s: Shape, v: Verdict, grown: bool, l: Shape): Verdict
    requires s.Bin?
  {
    match v
    case Keeps =>
      if Factor(s) != -1 || !grown || l.Nil? then Keeps
      else if Factor(l) < 0 then (if Factor(l.r) > 0 then Breaks else Keeps)
      else if l.l.Nil? || Factor(l.r) > 0 then Keeps else LeansRight
    case LeansLeft => if Factor(s) == -1 && l.Bin? && Factor(l.r) <= 0 then Keeps else Breaks
    case _ => Breaks
  }

  function FromRight(s: Shape, v: Verdict, grown: bool, r: Shape): Verdict
    requires s.Bin?
  {
    match v
    case Keeps =>
      if Factor(s) != 1 || !grown || r.Nil? then Keeps
      else if Factor(r) > 0 then (if Factor(r.l) < 0 then Breaks else Keeps)
      else if r.r.Nil? || Factor(r.l) < 0 then Keeps else LeansLeft
    case LeansRight => if Factor(s) == 1 && r.Bin? && Factor(r.l) >= 0 then Keeps else Breaks
    case _ => Breaks
  }

  lemma LeftStep(s: Shape, v: Verdict, grown: bool, l: Shape)
    requires s.Bin? && Balanced(s) && Comes(v, s.l, grown, l)
    ensures var t := LeftBalance(s.(l := l));
            && Comes(FromLeft(s, v, grown, l), s, Height(t) > Height(s), t)
            && (v.Keeps? && FromLeft(s, v, grown, l).Keeps? ==> (Height(t) > Height(s) <==> Factor(s) == 0 && grown))
            && (FromLeft(s, v, grown, l).LeansRight? ==> l.Bin? && t.l == l.l)
  {
    if Factor(s) == -1 && grown {
      RightRotated(s.(l := l));
      match v
      case Keeps => RepairOfBalanced(s, l);
      case LeansLeft => RepairOfLeaning(s, l);
      case LeansRight => RepairOfRight(s, l);
      case Breaks =>
        if Factor(l) < -1 { RepairOfLeaning(s, l); }
        else if Factor(l) > 1 { RepairOfRight(s, l); }
        else { RepairOfLost(s, l); }
    }
  }

  /** The parts that a rotation to the right puts together. */
  lemma RightRotated(u: Shape)
    requires Factor(u) == -2
    ensures var (x, t) := (u.l, LeftBalance(u));
            && CanRotateRight(u)
            && if LeftHeavyInside(u) || x.l.Nil?
               then t == Bin(x.r.node, x.r.key, Bin(x.node, x.key, x.l, x.r.l), Bin(u.node, u.key, x.r.r, u.r))
               else t == Bin(x.node, x.key, x.l, Bin(u.node, u.key, x.r, u.r))
  {
    LeaningLeft(u);
  }

  /** A subtree that has grown and is balanced. */
  lemma RepairOfBalanced(s: Shape, l: Shape)
    requires s.Bin? && Balanced(s) && Factor(s) == -1 && Height(l) == Height(s.l) + 1
    requires Balanced(l) && Factor(l) != 0 && CanRotateRight(s.(l := l))
    ensures var (t, w) := (LeftBalance(s.(l := l)), FromLeft(s, Keeps, true, l));
            && Comes(w, s, w != Keeps, t) && (w.LeansRight? ==> t.l == l.l)
  {
    RightRotated(s.(l := l));
  }

  /** A subtree that leans to the left by two or more. */
  lemma RepairOfLeaning(s: Shape, l: Shape)
    requires s.Bin? && Balanced(s) && Factor(s) == -1 && Height(l) == Height(s.l) + 1
    requires Factor(l) <= -2 && l.r.Bin? && Factor(l.l) == 1
    ensures var t := LeftBalance(s.(l := l));
            if LeaningLeftBy2(l) && Factor(l.r) <= 0 then Comes(Keeps, s, false, t)
            else Lost(t, Height(t) > Height(s)) && Height(s) <= Height(t) <= Height(s) + 1
  {
    RightRotated(s.(l := l));
  }

  /** A subtree that leans to the right by two or more. */
  lemma RepairOfRight(s: Shape, l: Shape)
    requires s.Bin? && Balanced(s) && Factor(s) == -1 && Height(l) == Height(s.l) + 1
    requires Factor(l) >= 2 && l.l.Bin? && Factor(l.r) == -1
    ensures var t := LeftBalance(s.(l := l)); Lost(t, true) && Height(t) == Height(s) + 1
  {
    RightRotated(s.(l := l));
  }

  /** A subtree that is out of balance further down. */
  lemma RepairOfLost(s: Shape, l: Shape)
    requires s.Bin? && Balanced(s) && Factor(s) == -1 && Height(l) == Height(s.l) + 1
    requires !Balanced(l) && (Factor(l) == 1 || Factor(l) == -1)
    ensures var t := LeftBalance(s.(l := l));
            Lost(t, Height(t) > Height(s)) && Height(s) <= Height(t) <= Height(s) + 1
  {
    RightRotated(s.(l := l));
  }

  function Other(v: Verdict): Verdict {
    match v
    case LeansLeft => LeansRight
    case LeansRight => LeansLeft
    case _ => v
  }

  lemma FlipComes(v: Verdict, s: Shape, grown: bool, t: Shape)
    ensures Comes(Other(v), Flip(s), grown, Flip(t)) <==> Comes(v, s, grown, t)
  {
    FlipTwice(t);
    if t.Bin? {
      FlipTwice(t.l);
      FlipTwice(t.r);
    }
  }

  lemma FlipFrom(s: Shape, v: Verdict, grown: bool, r: Shape)
    requires s.Bin?
    ensures Other(FromLeft(Flip(s), Other(v), grown, Flip(r))) == FromRight(s, v, grown, r)
  {
    FlipTwice(s);
    FlipTwice(r);
    if r.Bin? { FlipTwice(r.l); }
  }

  lemma RightStep(s: Shape, v: Verdict, grown: bool, r: Shape)
    requires s.Bin? && Balanced(s) && Comes(v, s.r, grown, r)
    ensures var (t, w) := (RightBalance(s.(r := r)), FromRight(s, v, grown, r));
            && Comes(w, s, Height(t) > Height(s), t)
            && (v.Keeps? && w.Keeps? ==> (Height(t) > Height(s) <==> Factor(s) == 0 && grown))
            && (w.LeansLeft? ==> r.Bin? && t.r == r.r)
  {
    var t, w := RightBalance(s.(r := r)), FromRight(s, v, grown, r);
    FlipTwice(s);
    FlipComes(v, s.r, grown, r);
    FlipFrom(s, v, grown, r);
    LeftStep(Flip(s), Other(v), grown, Flip(r));
    FlipBalances(s.(r := r));
    FlipComes(w, s, Height(t) > Height(s), t);
    if w.LeansLeft? {
      FlipTwice(t.r);
      FlipTwice(r.r);
    }
  }

  /** Insertion of an absent `k` makes the balanced tree `s` higher. */
  predicate Grows(cmp: Comparator, s: Shape, k: Blob) {
    s.Nil? || (Factor(s) == 0 && Grows(cmp, if cmp(k, s.key) < 0 then s.l else s.r, k))
  }

  /** What a left subtree `x` that has grown makes of a tree that leaned to the left. */
  function LeftOverflow(cmp: Comparator, x: Shape, k: Blob): Verdict {
    if x.Nil? then Keeps
    else if cmp(k, x.key) < 0 then (if Factor(x.r) > 0 then Breaks else Keeps)
    else if x.r.Nil? || cmp(k, x.r.key) >= 0 then Keeps else LeansRight
  }

  function RightOverflow(cmp: Comparator, x: Shape, k: Blob): Verdict {
    if x.Nil? then Keeps
    else if cmp(k, x.key) >= 0 then (if Factor(x.l) < 0 then Breaks else Keeps)
    else if x.l.Nil? || cmp(k, x.l.key) < 0 then Keeps else LeansLeft
  }

  /** What an insertion will do to the balance, read off the tree before the insertion. */
  function Judge(cmp: Comparator, s: Shape, k: Blob): Verdict {
    if s.Nil? then Keeps
    else if cmp(k, s.key) < 0 then
      match Judge(cmp, s.l, k)
      case Keeps => if Factor(s) == -1 && Grows(cmp, s.l, k) then LeftOverflow(cmp, s.l, k) else Keeps
      case LeansLeft =>
        if Factor(s) == -1 && s.l.Bin? && s.l.r.Bin? && Factor(s.l.r.r) <= 0 then Keeps else Breaks
      case _ => Breaks
    else
      match Judge(cmp, s.r, k)
      case Keeps => if Factor(s) == 1 && Grows(cmp, s.r, k) then RightOverflow(cmp, s.r, k) else Keeps
      case LeansRight =>
        if Factor(s) == 1 && s.r.Bin? && s.r.l.Bin? && Factor(s.r.l.l) >= 0 then Keeps else Breaks
      case _ => Breaks
  }

  /** What the tree after an insertion looks like. */
  predicate Judged(cmp: Comparator, s: Shape, k: Blob, t: Shape) {
    var v := Judge(cmp, s, k);
    && Comes(v, s, Height(t) > Height(s), t)
    && (v.Keeps? ==> (Height(t) > Height(s) <==> Grows(cmp, s, k)))
    // nothing has been rotated in a tree that has grown and kept its balance
    && (v.Keeps? && Grows(cmp, s, k) && s.Bin? ==>
          if cmp(k, s.key) < 0 then t == s.(l := t.l) && Factor(t) == -1 else t == s.(r := t.r) && Factor(t) == 1)
    && (v.LeansLeft? ==> s.Bin? && s.r.Bin? && t.r == s.r.r)
    && (v.LeansRight? ==> s.Bin? && s.l.Bin? && t.l == s.l.l)
  }

  lemma {:induction false} InsertionIsJudged(cmp: Comparator, s: Shape, k: Blob, n: Node)
    requires Balanced(s)
    ensures Judged(cmp, s, k, Insert(cmp, s, k, n))
  {
    if s.Bin? {
      if cmp(k, s.key) < 0 {
        InsertionIsJudged(cmp, s.l, k, n);
        if s.l.Bin? { InsertionIsJudged(cmp, s.l.r, k, n); }
        JudgedFromLeft(cmp, s, k, n);
      } else {
        InsertionIsJudged(cmp, s.r, k, n);
        if s.r.Bin? { InsertionIsJudged(cmp, s.r.l, k, n); }
        JudgedFromRight(cmp, s, k, n);
      }
    }
  }

  lemma JudgedFromLeft(cmp: Comparator, s: Shape, k: Blob, n: Node)
    requires Balanced(s) && s.Bin? && cmp(k, s.key) < 0 && Judged(cmp, s.l, k, Insert(cmp, s.l, k, n))
    requires s.l.Bin? ==> Judged(cmp, s.l.r, k, Insert(cmp, s.l.r, k, n))
    ensures Judged(cmp, s, k, Insert(cmp, s, k, n))
  {
    var l, v := Insert(cmp, s.l, k, n), Judge(cmp, s.l, k);
    var grown := Height(l) > Height(s.l);
    LeftStep(s, v, grown, l);
    JudgeOnLeft(cmp, s, k, n);
  }

  /** What the verdict on the left subtree makes of the whole can be read off before the call. */
  lemma JudgeOnLeft(cmp: Comparator, s: Shape, k: Blob, n: Node)
    requires Balanced(s) && s.Bin? && cmp(k, s.key) < 0 && Judged(cmp, s.l, k, Insert(cmp, s.l, k, n))
    requires s.l.Bin? ==> Judged(cmp, s.l.r, k, Insert(cmp, s.l.r, k, n))
    ensures var l := Insert(cmp, s.l, k, n);
            FromLeft(s, Judge(cmp, s.l, k), Height(l) > Height(s.l), l) == Judge(cmp, s, k)
  {}

  lemma JudgeOnRight(cmp: Comparator, s: Shape, k: Blob, n: Node)
    requires Balanced(s) && s.Bin? && cmp(k, s.key) >= 0 && Judged(cmp, s.r, k, Insert(cmp, s.r, k, n))
    requires s.r.Bin? ==> Judged(cmp, s.r.l, k, Insert(cmp, s.r.l, k, n))
    ensures var r := Insert(cmp, s.r, k, n);
            FromRight(s, Judge(cmp, s.r, k), Height(r) > Height(s.r), r) == Judge(cmp, s, k)
  {}

  lemma JudgedFromRight(cmp: Comparator, s: Shape, k: Blob, n: Node)
    requires Balanced(s) && s.Bin? && cmp(k, s.key) >= 0 && Judged(cmp, s.r, k, Insert(cmp, s.r, k, n))
    requires s.r.Bin? ==> Judged(cmp, s.r.l, k, Insert(cmp, s.r.l, k, n))
    ensures Judged(cmp, s, k, Insert(cmp, s, k, n))
  {
    var r, v := Insert(cmp, s.r, k, n), Judge(cmp, s.r, k);
    var grown := Height(r) > Height(s.r);
    RightStep(s, v, grown, r);
    JudgeOnRight(cmp, s, k, n);
  }

  /** Insertion keeps a balanced tree balanced exactly when the way down says so. */
  lemma InsertBalancesExactly(cmp: Comparator, s: Shape, k: Blob, n: Node)
    requires Balanced(s)
    ensures Balanced(Insert(cmp, s, k, n)) <==> Judge(cmp, s, k).Keeps?
  {
    InsertionIsJudged(cmp, s, k, n);
  }

  // ---------- deletion ----------

  /** Taking the largest element out of the balanced tree `s` makes it lower. */
  predicate ShrinksMax(s: Shape) {
    s.Bin? && (s.r.Nil? || (Factor(s) == 1 && ShrinksMax(s.r)))
  }

  /** No node on the way to the largest element leans away from a subtree that gets lower: the
      walk only ever repairs the other side. */
  predicate SafeMax(s: Shape) {
    s.Bin? && s.r.Bin? ==> SafeMax(s.r) && !(Factor(s) == -1 && ShrinksMax(s.r))
  }

  predicate ShrinksMin(s: Shape) {
    s.Bin? && (s.l.Nil? || (Factor(s) == -1 && ShrinksMin(s.l)))
  }

  predicate SafeMin(s: Shape) {
    s.Bin? && s.l.Bin? ==> SafeMin(s.l) && !(Factor(s) == 1 && ShrinksMin(s.l))
  }

  lemma {:induction false} DeleteMaxBalancesExactly(s: Shape)
    requires s.Bin? && Balanced(s)
    ensures Balanced(DeleteMax(s)) <==> SafeMax(s)
    ensures Height(DeleteMax(s)) == Height(s) - if ShrinksMax(s) then 1 else 0
  {
    if s.r.Bin? { DeleteMaxBalancesExactly(s.r); }
  }

  lemma {:induction false} DeleteMinBalancesExactly(s: Shape)
    requires s.Bin? && Balanced(s)
    ensures Balanced(DeleteMin(s)) <==> SafeMin(s)
    ensures Height(DeleteMin(s)) == Height(s) - if ShrinksMin(s) then 1 else 0
  {
    if s.l.Bin? { DeleteMinBalancesExactly(s.l); }
  }

  /** What the walk to the maximum does at a node whose sides are balanced once the element is
      gone, but which need not have been balanced before: a lean to the right of two or three is
      made good exactly if one repair can do it, any other lean stays. */
  lemma MaxWalkRepairsExactly(s: Shape)
    requires s.Bin? && s.r.Bin? && Balanced(s.l) && Balanced(DeleteMax(s.r))
    ensures var u := s.(r := DeleteMax(s.r));
            Balanced(DeleteMax(s)) <==> -1 <= Factor(u) <= 1 || RepairableRight(u)
  {
    var u := s.(r := DeleteMax(s.r));
    if Factor(u) >= 2 { RightRepairExactly(u); }
  }

  lemma MinWalkRepairsExactly(s: Shape)
    requires s.Bin? && s.l.Bin? && Balanced(s.r) && Balanced(DeleteMin(s.l))
    ensures var u := s.(l := DeleteMin(s.l));
            Balanced(DeleteMin(s)) <==> -1 <= Factor(u) <= 1 || RepairableLeft(u)
  {
    var u := s.(l := DeleteMin(s.l));
    if Factor(u) <= -2 { LeftRepairExactly(u); }
  }

  /** A right (left) child of this kind is lifted by the rotation that its lean calls for. */
  predicate Liftable(x: Shape) {
    x.Bin? && (Factor(x) < 0 <==> Factor(x.l) < 0 || x.r.Nil?)
  }

  predicate LiftableLeft(x: Shape) {
    x.Bin? && (Factor(x) > 0 <==> Factor(x.r) > 0 || x.l.Nil?)
  }

  /** Deletion of `k` makes the balanced tree `s` lower, as long as it stays balanced. */
  predicate Shrinks(cmp: Comparator, s: Shape, k: Blob) {
    if s.Nil? then false
    else
      var c := cmp(k, s.key);
      if c < 0 then Shrinks(cmp, s.l, k) && (Factor(s) == -1 || (Factor(s) == 1 && Factor(s.r) != 0))
      else if c > 0 then Shrinks(cmp, s.r, k) && (Factor(s) == 1 || (Factor(s) == -1 && Factor(s.l) != 0))
      else if Factor(s) > 0 then ShrinksMin(s.r)
      else if Factor(s) < 0 then ShrinksMax(s.l)
      else s.l.Nil?
  }

  /** The way down for `k` and on to its neighbour keeps the balance. */
  predicate SafeDelete(cmp: Comparator, s: Shape, k: Blob) {
    s.Bin? ==>
      var c := cmp(k, s.key);
      if c < 0 then SafeDelete(cmp, s.l, k) && (Factor(s) == 1 && Shrinks(cmp, s.l, k) ==> Liftable(s.r))
      else if c > 0 then SafeDelete(cmp, s.r, k) && (Factor(s) == -1 && Shrinks(cmp, s.r, k) ==> LiftableLeft(s.l))
      else if Factor(s) > 0 then SafeMin(s.r)
      else SafeMax(s.l)
  }

  /** The repair of one side leaves an unbalanced other side unbalanced. */
  lemma OtherSideStays(s: Shape)
    requires s.Bin?
    ensures !Balanced(s.l) ==> !Balanced(RightBalance(s))
    ensures !Balanced(s.r) ==> !Balanced(LeftBalance(s))
  {
    if Factor(s) >= 2 { LeaningRight(s); }
    if Factor(s) <= -2 { LeaningLeft(s); }
  }

  /** Deletion keeps a balanced tree balanced exactly when the way down is safe. */
  lemma {:induction false} DeleteBalancesExactly(cmp: Comparator, s: Shape, k: Blob, own: bool)
    requires Balanced(s)
    ensures Balanced(Delete(cmp, s, k, own)) <==> SafeDelete(cmp, s, k)
    ensures SafeDelete(cmp, s, k) ==> Height(Delete(cmp, s, k, own)) == Height(s) - if Shrinks(cmp, s, k) then 1 else 0
  {
    if s.Bin? {
      var c := cmp(k, s.key);
      if c < 0 {
        DeleteBalancesExactly(cmp, s.l, k, own);
        LeftShrinks(s, Delete(cmp, s.l, k, own), Shrinks(cmp, s.l, k));
      } else if c > 0 {
        DeleteBalancesExactly(cmp, s.r, k, own);
        RightShrinks(s, Delete(cmp, s.r, k, own), Shrinks(cmp, s.r, k));
      } else if Height(s) > 1 {
        if Factor(s) > 0 { DeleteMinBalancesExactly(s.r); } else { DeleteMaxBalancesExactly(s.l); }
      }
    }
  }

  /** A tree whose left subtree comes back as `l`, lower or not. */
  lemma LeftShrinks(s: Shape, l: Shape, lower: bool)
    requires s.Bin? && Balanced(s) && (Balanced(l) ==> Height(l) == Height(s.l) - if lower then 1 else 0)
    ensures var t := RightBalance(s.(l := l));
            && (Balanced(t) <==> Balanced(l) && (Factor(s) == 1 && lower ==> Liftable(s.r)))
            && (Balanced(t) ==>
                  var gone := lower && (Factor(s) == -1 || (Factor(s) == 1 && Factor(s.r) != 0));
                  Height(t) == Height(s) - if gone then 1 else 0)
  {
    var u := s.(l := l);
    OtherSideStays(u);
    if Balanced(l) && Factor(u) == 2 {
      RightRepairExactly(u);
      LiftedHeight(u);
    }
  }

  /** What a rotation to the left does to a lean of two over a child that it can lift. */
  lemma LiftedHeight(u: Shape)
    requires Factor(u) == 2 && Balanced(u.l) && Balanced(u.r)
    ensures RepairableRight(u) <==> Liftable(u.r)
    ensures RepairableRight(u) ==> Height(RightBalance(u)) == Height(u) - if Factor(u.r) != 0 then 1 else 0
  {
    RightBalanceLifts(u);
  }

  lemma LiftedHeightLeft(u: Shape)
    requires Factor(u) == -2 && Balanced(u.l) && Balanced(u.r)
    ensures RepairableLeft(u) <==> LiftableLeft(u.l)
    ensures RepairableLeft(u) ==> Height(LeftBalance(u)) == Height(u) - if Factor(u.l) != 0 then 1 else 0
  {
    LeftBalanceLifts(u);
  }

  lemma RightShrinks(s: Shape, r: Shape, lower: bool)
    requires s.Bin? && Balanced(s) && (Balanced(r) ==> Height(r) == Height(s.r) - if lower then 1 else 0)
    ensures var t := LeftBalance(s.(r := r));
            && (Balanced(t) <==> Balanced(r) && (Factor(s) == -1 && lower ==> LiftableLeft(s.l)))
            && (Balanced(t) ==>
                  var gone := lower && (Factor(s) == 1 || (Factor(s) == -1 && Factor(s.l) != 0));
                  Height(t) == Height(s) - if gone then 1 else 0)
  {
    var u := s.(r := r);
    OtherSideStays(u);
    if Balanced(r) && Factor(u) == -2 {
      LeftRepairExactly(u);
      LiftedHeightLeft(u);
    }
  }
}
