/** Sets as ordered trees (containers/set.c). */
module SetAlgebra {
  import opened Checks
  import opened Words
  import opened Ordering
  import opened AvlShape
  import opened AvlTree

  type Set = Tree

  /** The elements of `s` that have an equal in `t` (keep) or have none (!keep), in order. */
  ghost function Chosen(cmp: Comparator, s: seq<Blob>, t: seq<Blob>, keep: bool): seq<Blob> {
    if s == [] then []
    else
      var rest, last := Chosen(cmp, s[..|s| - 1], t, keep), s[|s| - 1];
      if Has(cmp, t, last) == keep then rest + [last] else rest
  }

  /** `s` after inserting `x`, which does nothing when an equal element is there. */
  ghost function Added(cmp: Comparator, s: seq<Blob>, x: Blob): seq<Blob> {
    if Has(cmp, s, x) then s else Placed(cmp, s, x)
  }

  /** Inserting the elements of `t` one after the other into `s`. */
  ghost function Merged(cmp: Comparator, s: seq<Blob>, t: seq<Blob>): seq<Blob> {
    if t == [] then s
    else Added(cmp, Merged(cmp, s, t[..|t| - 1]), t[|t| - 1])
  }

  lemma MergedStep(cmp: Comparator, s: seq<Blob>, t: seq<Blob>, i: nat)
    requires i < |t|
    ensures Merged(cmp, s, t[..i + 1]) == Added(cmp, Merged(cmp, s, t[..i]), t[i])
  {
    assert t[..i + 1][..i] == t[..i];
  }

  // ---------- what the loops compute, in terms of membership ----------

  lemma {:induction false} ChosenMembers(cmp: Comparator, s: seq<Blob>, t: seq<Blob>, keep: bool, x: Blob)
    ensures x in Chosen(cmp, s, t, keep) <==> x in s && Has(cmp, t, x) == keep
  {
    if s != [] {
      ChosenMembers(cmp, s[..|s| - 1], t, keep, x);
      assert s == s[..|s| - 1] + [s[|s| - 1]];
    }
  }

  lemma {:induction false} ChosenSorted(cmp: Comparator, s: seq<Blob>, t: seq<Blob>, keep: bool)
    requires Sorted(cmp, s)
    ensures Sorted(cmp, Chosen(cmp, s, t, keep))
    ensures s != [] ==> AllBelow(cmp, Chosen(cmp, s[..|s| - 1], t, keep), s[|s| - 1])
  {
    if s != [] {
      var u := Chosen(cmp, s[..|s| - 1], t, keep);
      ChosenSorted(cmp, s[..|s| - 1], t, keep);
      forall i | 0 <= i < |u| ensures cmp(u[i], s[|s| - 1]) < 0 {
        ChosenMembers(cmp, s[..|s| - 1], t, keep, u[i]);
        assert u[i] in u;
      }
    }
  }

  lemma ChosenStep(cmp: Comparator, s: seq<Blob>, t: seq<Blob>, keep: bool, i: nat)
    requires Sorted(cmp, s) && i < |s|
    ensures var rest := Chosen(cmp, s[..i], t, keep);
            && AllBelow(cmp, rest, s[i])
            && Chosen(cmp, s[..i + 1], t, keep) == if Has(cmp, t, s[i]) == keep then rest + [s[i]] else rest
  {
    assert s[..i + 1][..i] == s[..i];
    ChosenSorted(cmp, s[..i + 1], t, keep);
  }

  /** Equality of elements is what `Has` is about, so it carries over to equal elements. */
  lemma HasAlike(cmp: Comparator, s: seq<Blob>, a: Blob, b: Blob)
    requires ThreeWay(cmp) && cmp(a, b) == 0
    ensures Has(cmp, s, a) <==> Has(cmp, s, b)
  {
    forall i | 0 <= i < |s| ensures cmp(a, s[i]) == 0 <==> cmp(b, s[i]) == 0 { Alike(cmp, a, b, s[i]); }
  }

  lemma ChosenHas(cmp: Comparator, s: seq<Blob>, t: seq<Blob>, keep: bool, k: Blob)
    requires ThreeWay(cmp)
    ensures Has(cmp, Chosen(cmp, s, t, keep), k) <==> Has(cmp, s, k) && Has(cmp, t, k) == keep
  {
    var u := Chosen(cmp, s, t, keep);
    if Has(cmp, u, k) {
      var i :| 0 <= i < |u| && cmp(k, u[i]) == 0;
      ChosenMembers(cmp, s, t, keep, u[i]);
      assert u[i] in u;
      HasAlike(cmp, t, k, u[i]);
    }
    if Has(cmp, s, k) && Has(cmp, t, k) == keep {
      var i :| 0 <= i < |s| && cmp(k, s[i]) == 0;
      HasAlike(cmp, t, k, s[i]);
      ChosenMembers(cmp, s, t, keep, s[i]);
    }
  }

  /** The chosen elements, as a set. */
  lemma ChosenIs(cmp: Comparator, s: seq<Blob>, t: seq<Blob>, keep: bool)
    requires ThreeWay(cmp)
    ensures var u := Chosen(cmp, s, t, keep);
            && (forall x :: x in u <==> x in s && Has(cmp, t, x) == keep)
            && (forall k :: Has(cmp, u, k) <==> Has(cmp, s, k) && Has(cmp, t, k) == keep)
  {
    var u := Chosen(cmp, s, t, keep);
    forall x ensures x in u <==> x in s && Has(cmp, t, x) == keep { ChosenMembers(cmp, s, t, keep, x); }
    forall k ensures Has(cmp, u, k) <==> Has(cmp, s, k) && Has(cmp, t, k) == keep { ChosenHas(cmp, s, t, keep, k); }
  }

  lemma PlacedHas(cmp: Comparator, s: seq<Blob>, x: Blob, k: Blob)
    ensures Has(cmp, Placed(cmp, s, x), k) <==> Has(cmp, s, k) || cmp(k, x) == 0
  {
    var i, u := Slot(cmp, s, x), Placed(cmp, s, x);
    assert u[i] == x;
    assert forall j :: 0 <= j < |s| ==> s[j] == u[if j < i then j else j + 1];
  }

  lemma {:induction false} MergedHas(cmp: Comparator, s: seq<Blob>, t: seq<Blob>, k: Blob)
    requires ThreeWay(cmp)
    ensures Has(cmp, Merged(cmp, s, t), k) <==> Has(cmp, s, k) || Has(cmp, t, k)
  {
    if t != [] {
      var u, rest, last := t[..|t| - 1], Merged(cmp, s, t[..|t| - 1]), t[|t| - 1];
      MergedHas(cmp, s, u, k);
      PlacedHas(cmp, rest, last, k);
      assert Has(cmp, t, k) <==> Has(cmp, u, k) || cmp(k, last) == 0;
      if cmp(k, last) == 0 { HasAlike(cmp, rest, k, last); }
    }
  }

  lemma PlacedMembers(cmp: Comparator, s: seq<Blob>, y: Blob, x: Blob)
    ensures x in Placed(cmp, s, y) <==> x in s || x == y
  {
    var i, u := Slot(cmp, s, y), Placed(cmp, s, y);
    assert u[i] == y && u == s[..i] + [y] + s[i..] && s == s[..i] + s[i..];
  }

  lemma LastIsNew(cmp: Comparator, t: seq<Blob>)
    requires ThreeWay(cmp) && Sorted(cmp, t) && t != []
    ensures !Has(cmp, t[..|t| - 1], t[|t| - 1])
  {
    forall i | 0 <= i < |t| - 1 ensures cmp(t[|t| - 1], t[i]) != 0 { Mirror(cmp, t[i], t[|t| - 1]); }
  }

  /** Of equal elements the copy that was there first stays. */
  lemma {:induction false} MergedMembers(cmp: Comparator, s: seq<Blob>, t: seq<Blob>, x: Blob)
    requires ThreeWay(cmp) && Sorted(cmp, t)
    ensures x in Merged(cmp, s, t) <==> x in s || (x in t && !Has(cmp, s, x))
  {
    if t != [] {
      var init, last := t[..|t| - 1], t[|t| - 1];
      MergedMembers(cmp, s, init, x);
      MergedHas(cmp, s, init, last);
      LastIsNew(cmp, t);
      PlacedMembers(cmp, Merged(cmp, s, init), last, x);
      assert t == init + [last];
    }
  }

  lemma MergedMembersAll(cmp: Comparator, s: seq<Blob>, t: seq<Blob>)
    requires ThreeWay(cmp) && Sorted(cmp, t)
    ensures forall x :: x in Merged(cmp, s, t) <==> x in s || (x in t && !Has(cmp, s, x))
  {
    forall x ensures x in Merged(cmp, s, t) <==> x in s || (x in t && !Has(cmp, s, x)) { MergedMembers(cmp, s, t, x); }
  }

  /** Inserting an ascending sequence into the empty set gives that sequence. */
  lemma {:induction false} MergedFromEmpty(cmp: Comparator, t: seq<Blob>)
    requires ThreeWay(cmp) && Sorted(cmp, t)
    ensures Merged(cmp, [], t) == t
  {
    if t != [] {
      MergedFromEmpty(cmp, t[..|t| - 1]);
      PlacedAtEnd(cmp, t[..|t| - 1], t[|t| - 1]);
    }
  }

  /** The i-th element that a subset has an equal to is never before the i-th element. */
  lemma {:induction false} SubsetRank(cmp: Comparator, s: seq<Blob>, t: seq<Blob>, i: nat)
    requires ThreeWay(cmp) && Sorted(cmp, s) && Sorted(cmp, t) && i < |s|
    requires forall k :: k in s ==> Has(cmp, t, k)
    ensures exists j :: i <= j < |t| && cmp(s[i], t[j]) == 0
  {
    assert Has(cmp, t, s[i]);
    var j :| 0 <= j < |t| && cmp(s[i], t[j]) == 0;
    if i > 0 {
      SubsetRank(cmp, s, t, i - 1);
      var p :| i - 1 <= p < |t| && cmp(s[i - 1], t[p]) == 0;
      Mirror(cmp, s[i - 1], t[p]);
      Below(cmp, t[p], s[i - 1], s[i]);
      Below(cmp, t[p], s[i], t[j]);
      Mirror(cmp, t[p], t[p]);
      Mirror(cmp, t[p], t[j]);
    }
  }

  /** Inclusion bounds the size, and inclusion of equally many elements is equality. */
  lemma SubsetCardinality(cmp: Comparator, s: seq<Blob>, t: seq<Blob>)
    requires ThreeWay(cmp) && Sorted(cmp, s) && Sorted(cmp, t)
    requires forall k :: k in s ==> Has(cmp, t, k)
    ensures |s| <= |t|
    ensures |s| == |t| ==> forall k :: Has(cmp, s, k) <==> Has(cmp, t, k)
  {
    if s != [] { SubsetRank(cmp, s, t, |s| - 1); }
    if |s| == |t| {
      forall i | 0 <= i < |s| ensures cmp(s[i], t[i]) == 0 { SameRank(cmp, s, t, i); }
      forall k ensures Has(cmp, s, k) <==> Has(cmp, t, k) {
        forall i | 0 <= i < |s| ensures cmp(k, s[i]) == 0 <==> cmp(k, t[i]) == 0 {
          Alike(cmp, s[i], t[i], k);
          Mirror(cmp, k, s[i]);
          Mirror(cmp, k, t[i]);
        }
      }
    }
  }

  lemma {:induction false} SameRank(cmp: Comparator, s: seq<Blob>, t: seq<Blob>, i: nat)
    requires ThreeWay(cmp) && Sorted(cmp, s) && Sorted(cmp, t) && |s| == |t| && i < |s|
    requires forall k :: k in s ==> Has(cmp, t, k)
    ensures cmp(s[i], t[i]) == 0
    decreases |s| - i
  {
    SubsetRank(cmp, s, t, i);
    var j :| i <= j < |t| && cmp(s[i], t[j]) == 0;
    if i + 1 < |s| && j > i {
      SameRank(cmp, s, t, j);
      Mirror(cmp, s[j], t[j]);
      Below(cmp, s[i], s[j], t[j]);
    }
  }

  // ---------- the loops (containers/set.c:50-94) ----------

  /** Two sets that share no node. */
  ghost predicate Apart(r: Set, a: Set)
    reads r, a
  {
    r != a && Repr(r.shape) !! Repr(a.shape)
  }

  /** Sound: both sets are in order, share their comparator and share no node. */
  ghost function Pair(r: Set, a: Set): Health
    reads r, Repr(r.shape), a, Repr(a.shape)
  {
    if r.Valid() && a.Valid() && a.comp == r.comp && Apart(r, a) then Sound else Unsound
  }

  /** Inserts the i-th element of `a`, where `iter` stands, into `r` and moves on. */
  method InsertNext(r: Set, a: Set, iter: Node, ghost i: nat) returns (next: Node?)
    requires Pair(r, a).Sound?
    requires i < |a.Elements()| && iter == At(Nodes(a.shape), i)
    modifies r`root, r`size, r`shape, Repr(r.shape)
    ensures Pair(r, a).Sound?
    ensures forall n :: n in Repr(r.shape) ==> n in old(Repr(r.shape)) || fresh(n)
    ensures next == At(Nodes(a.shape), i + 1)
    ensures r.Elements() == Added(r.comp, old(r.Elements()), a.Elements()[i])
  {
    assert allocated(Repr(a.shape));
    LinkedData(a.shape, i);
    next := iter.next;
    var status, node := r.Insert(iter.data);
    assert a.Valid() == old(a.Valid());
  }

  /** Sound: `iter` stands on the i-th element of `a`, and those before it have been added to `s`. */
  ghost function Adding(r: Set, a: Set, s: seq<Blob>, iter: Node?, i: nat): Health
    reads r, Repr(r.shape), a, Repr(a.shape)
  {
    if Pair(r, a).Sound? && i <= |a.Elements()| && iter == At(Nodes(a.shape), i)
       && r.Elements() == Merged(r.comp, s, a.Elements()[..i])
    then Sound else Unsound
  }

  method AddNext(r: Set, a: Set, iter: Node, ghost s: seq<Blob>, ghost i: nat) returns (next: Node?)
    requires Adding(r, a, s, iter, i).Sound?
    modifies r`root, r`size, r`shape, Repr(r.shape)
    ensures i < |a.Elements()| && Adding(r, a, s, next, i + 1).Sound?
    ensures forall n :: n in Repr(r.shape) ==> n in old(Repr(r.shape)) || fresh(n)
  {
    SameCount(a.shape);
    MergedStep(r.comp, s, a.Elements(), i);
    next := InsertNext(r, a, iter, i);
  }

  lemma AllAdded(r: Set, a: Set, s: seq<Blob>, i: nat)
    requires Adding(r, a, s, null, i).Sound?
    ensures Pair(r, a).Sound? && r.Elements() == Merged(r.comp, s, a.Elements())
  {
    SameCount(a.shape);
    assert a.Elements()[..i] == a.Elements();
  }

  /** Inserts every element of `a`, from the one `first` stands on, into `r`. */
  method InsertFrom(r: Set, a: Set, first: Node?)
    requires Pair(r, a).Sound?
    requires first == At(Nodes(a.shape), 0)
    modifies r`root, r`size, r`shape, Repr(r.shape)
    ensures Pair(r, a).Sound?
    ensures forall n :: n in Repr(r.shape) ==> n in old(Repr(r.shape)) || fresh(n)
    ensures r.Elements() == Merged(r.comp, old(r.Elements()), a.Elements())
  {
    var iter := first;
    ghost var s, i := r.Elements(), 0;
    while iter != null
      invariant Adding(r, a, s, iter, i).Sound?
      invariant forall n :: n in Repr(r.shape) ==> n in old(Repr(r.shape)) || fresh(n)
      decreases |a.Elements()| - i
    {
      iter := AddNext(r, a, iter, s, i);
      i := i + 1;
    }
    AllAdded(r, a, s, i);
  }

  method InsertAllOf(r: Set, a: Set)
    requires Pair(r, a).Sound?
    modifies r`root, r`size, r`shape, Repr(r.shape)
    ensures Pair(r, a).Sound?
    ensures forall n :: n in Repr(r.shape) ==> n in old(Repr(r.shape)) || fresh(n)
    ensures r.Elements() == Merged(r.comp, old(r.Elements()), a.Elements())
  {
    assert allocated(Repr(r.shape)) && allocated(Repr(a.shape));
    var iter := a.Begin();
    assert Pair(r, a) == old(Pair(r, a));
    InsertFrom(r, a, iter);
  }

  /** The elements of `a`, then those of `b`. */
  method Union(a: Set, b: Set) returns (r: Set)
    requires a.Valid() && b.Valid() && a.comp == b.comp
    ensures fresh(r) && r.Valid() && r.comp == a.comp && forall n :: n in Repr(r.shape) ==> fresh(n)
    ensures r.Elements() == Merged(a.comp, a.Elements(), b.Elements())
    // of equal elements the copy of `a`
    ensures forall x :: x in r.Elements() <==>
                          x in a.Elements() || (x in b.Elements() && !Has(a.comp, a.Elements(), x))
    ensures forall k :: Has(a.comp, r.Elements(), k) <==> Has(a.comp, a.Elements(), k) || Has(a.comp, b.Elements(), k)
  {
    assert allocated(Repr(a.shape)) && allocated(Repr(b.shape));
    r := FirstPart(a);
    assert b.Valid() == old(b.Valid());
    InsertAllOf(r, b);
    MergedHasAll(a.comp, a.Elements(), b.Elements());
    MergedMembersAll(a.comp, a.Elements(), b.Elements());
  }

  /** The first loop of the union: a new set with the elements of `a`. */
  method FirstPart(a: Set) returns (r: Set)
    requires a.Valid()
    ensures fresh(r) && Pair(r, a).Sound? && forall n :: n in Repr(r.shape) ==> fresh(n)
    ensures r.Elements() == a.Elements()
  {
    assert allocated(Repr(a.shape));
    r := new Tree(a.comp);
    assert a.Valid() == old(a.Valid());
    InsertAllOf(r, a);
    MergedFromEmpty(a.comp, a.Elements());
  }

  lemma MergedHasAll(cmp: Comparator, s: seq<Blob>, t: seq<Blob>)
    requires ThreeWay(cmp)
    ensures forall k :: Has(cmp, Merged(cmp, s, t), k) <==> Has(cmp, s, k) || Has(cmp, t, k)
  {
    forall k ensures Has(cmp, Merged(cmp, s, t), k) <==> Has(cmp, s, k) || Has(cmp, t, k) {
      MergedHas(cmp, s, t, k);
    }
  }

  lemma AddedAtEnd(cmp: Comparator, s: seq<Blob>, k: Blob)
    requires ThreeWay(cmp) && AllBelow(cmp, s, k)
    ensures Added(cmp, s, k) == s + [k]
  {
    PlacedAtEnd(cmp, s, k);
  }

  /** Inserts the i-th element of `a`, which is above everything in `r`, or leaves it out. */
  method InsertOrSkip(r: Set, a: Set, take: bool, iter: Node, ghost i: nat) returns (next: Node?)
    requires Pair(r, a).Sound? && i < |a.Elements()| && iter == At(Nodes(a.shape), i)
    requires AllBelow(r.comp, r.Elements(), a.Elements()[i])
    modifies r`root, r`size, r`shape, Repr(r.shape)
    ensures Pair(r, a).Sound? && next == At(Nodes(a.shape), i + 1)
    ensures forall n :: n in Repr(r.shape) ==> n in old(Repr(r.shape)) || fresh(n)
    ensures r.Elements() == if take then old(r.Elements()) + [a.Elements()[i]] else old(r.Elements())
  {
    if take {
      AddedAtEnd(r.comp, r.Elements(), a.Elements()[i]);
      next := InsertNext(r, a, iter, i);
    } else {
      LinkedData(a.shape, i);
      next := iter.next;
    }
  }

  /** Looks the i-th element of `a` up in `b`, inserts it into `r` if the outcome is the
      wanted one, and moves on. */
  method SelectNext(r: Set, a: Set, b: Set, keep: bool, iter: Node, ghost i: nat) returns (next: Node?)
    requires Pair(r, a).Sound? && Pair(r, b).Sound?
    requires i < |a.Elements()| && iter == At(Nodes(a.shape), i)
    requires AllBelow(r.comp, r.Elements(), a.Elements()[i])
    modifies r`root, r`size, r`shape, Repr(r.shape)
    ensures Pair(r, a).Sound? && Pair(r, b).Sound?
    ensures forall n :: n in Repr(r.shape) ==> n in old(Repr(r.shape)) || fresh(n)
    ensures next == At(Nodes(a.shape), i + 1)
    ensures var x := a.Elements()[i];
            r.Elements() == if Has(b.comp, b.Elements(), x) == keep then old(r.Elements()) + [x] else old(r.Elements())
  {
    assert allocated(Repr(r.shape)) && allocated(Repr(a.shape)) && allocated(Repr(b.shape));
    LinkedData(a.shape, i);
    var status, node := b.PtrAt(iter.data);
    assert Pair(r, a) == old(Pair(r, a)) && Pair(r, b) == old(Pair(r, b));
    next := InsertOrSkip(r, a, (status == 0) == keep, iter, i);
    assert b.Valid() == old(b.Valid());
  }

  /** Sound: `iter` stands on the i-th element of `a`, and `r` holds the ones chosen so far. */
  ghost function Choosing(r: Set, a: Set, b: Set, keep: bool, iter: Node?, i: nat): Health
    reads r, Repr(r.shape), a, Repr(a.shape), b, Repr(b.shape)
  {
    if Pair(r, a).Sound? && Pair(r, b).Sound? && i <= |a.Elements()| && iter == At(Nodes(a.shape), i)
       && r.Elements() == Chosen(a.comp, a.Elements()[..i], b.Elements(), keep)
    then Sound else Unsound
  }

  lemma AllChosen(r: Set, a: Set, b: Set, keep: bool, i: nat)
    requires Choosing(r, a, b, keep, null, i).Sound?
    ensures r.Elements() == Chosen(a.comp, a.Elements(), b.Elements(), keep)
  {
    SameCount(a.shape);
    assert a.Elements()[..i] == a.Elements();
  }

  method ChooseNext(r: Set, a: Set, b: Set, keep: bool, iter: Node, ghost i: nat) returns (next: Node?)
    requires Choosing(r, a, b, keep, iter, i).Sound?
    modifies r`root, r`size, r`shape, Repr(r.shape)
    ensures i < |a.Elements()| && Choosing(r, a, b, keep, next, i + 1).Sound?
    ensures forall n :: n in Repr(r.shape) ==> n in old(Repr(r.shape)) || fresh(n)
  {
    SameCount(a.shape);
    ChosenStep(a.comp, a.Elements(), b.Elements(), keep, i);
    next := SelectNext(r, a, b, keep, iter, i);
  }

  /** The loop that intersection (keep) and difference (!keep) share. */
  method SelectFrom(r: Set, a: Set, b: Set, keep: bool, first: Node?)
    requires Pair(r, a).Sound? && Pair(r, b).Sound?
    requires r.Elements() == [] && first == At(Nodes(a.shape), 0)
    modifies r`root, r`size, r`shape, Repr(r.shape)
    ensures Pair(r, a).Sound? && Pair(r, b).Sound?
    ensures forall n :: n in Repr(r.shape) ==> n in old(Repr(r.shape)) || fresh(n)
    ensures r.Elements() == Chosen(a.comp, a.Elements(), b.Elements(), keep)
  {
    var iter := first;
    ghost var i := 0;
    while iter != null
      invariant Choosing(r, a, b, keep, iter, i).Sound?
      invariant forall n :: n in Repr(r.shape) ==> n in old(Repr(r.shape)) || fresh(n)
      decreases |a.Elements()| - i
    {
      iter := ChooseNext(r, a, b, keep, iter, i);
      i := i + 1;
    }
    AllChosen(r, a, b, keep, i);
  }

  method Select(a: Set, b: Set, keep: bool) returns (r: Set)
    requires a.Valid() && b.Valid() && a.comp == b.comp
    ensures fresh(r) && r.Valid() && r.comp == a.comp && forall n :: n in Repr(r.shape) ==> fresh(n)
    ensures r.Elements() == Chosen(a.comp, a.Elements(), b.Elements(), keep)
  {
    assert allocated(Repr(a.shape)) && allocated(Repr(b.shape));
    r := new Tree(a.comp);
    var iter := a.Begin();
    assert a.Valid() == old(a.Valid()) && b.Valid() == old(b.Valid());
    SelectFrom(r, a, b, keep, iter);
  }

  /** The elements of `a` that `b` has. */
  method Intersect(a: Set, b: Set) returns (r: Set)
    requires a.Valid() && b.Valid() && a.comp == b.comp
    ensures fresh(r) && r.Valid() && r.comp == a.comp && forall n :: n in Repr(r.shape) ==> fresh(n)
    ensures forall x :: x in r.Elements() <==> x in a.Elements() && Has(a.comp, b.Elements(), x)
    ensures forall k :: Has(a.comp, r.Elements(), k) <==> Has(a.comp, a.Elements(), k) && Has(a.comp, b.Elements(), k)
  {
    r := Select(a, b, true);
    ChosenIs(a.comp, a.Elements(), b.Elements(), true);
  }

  /** The elements of `a` that `b` does not have. */
  method Difference(a: Set, b: Set) returns (r: Set)
    requires a.Valid() && b.Valid() && a.comp == b.comp
    ensures fresh(r) && r.Valid() && r.comp == a.comp && forall n :: n in Repr(r.shape) ==> fresh(n)
    ensures forall x :: x in r.Elements() <==> x in a.Elements() && !Has(a.comp, b.Elements(), x)
    ensures forall k :: Has(a.comp, r.Elements(), k) <==> Has(a.comp, a.Elements(), k) && !Has(a.comp, b.Elements(), k)
  {
    r := Select(a, b, false);
    ChosenIs(a.comp, a.Elements(), b.Elements(), false);
  }

  ghost predicate Included(cmp: Comparator, s: seq<Blob>, t: seq<Blob>) {
    forall k :: k in s ==> Has(cmp, t, k)
  }

  /** Sound: both sets are in order and share their comparator; they may share nodes. */
  ghost function Both(a: Set, b: Set): Health
    reads a, Repr(a.shape), b, Repr(b.shape)
  {
    if a.Valid() && b.Valid() && a.comp == b.comp then Sound else Unsound
  }

  /** Whether `b` has every element of `a`. */
  method IsSubset(a: Set, b: Set) returns (yes: bool)
    requires a.Valid() && b.Valid() && a.comp == b.comp
    ensures yes <==> Included(a.comp, a.Elements(), b.Elements())
  {
    assert allocated(Repr(a.shape)) && allocated(Repr(b.shape));
    var iter := a.Begin();
    assert Both(a, b) == old(Both(a, b));
    ghost var s, t, i := a.Elements(), b.Elements(), 0;
    SameCount(a.shape);
    while iter != null
      invariant Both(a, b).Sound?
      invariant 0 <= i <= |s| && iter == At(Nodes(a.shape), i)
      invariant forall j :: 0 <= j < i ==> Has(a.comp, t, s[j])
      decreases |s| - i
    {
      LinkedData(a.shape, i);
      var status, node := b.PtrAt(iter.data);
      assert Both(a, b) == old(Both(a, b));
      if status != 0 {
        assert s[i] in s;
        return false;
      }
      iter, i := iter.next, i + 1;
    }
    return true;
  }

  /** Equality is decided by comparing the counts and testing inclusion. */
  method IsEqual(a: Set, b: Set) returns (yes: bool)
    requires a.Valid() && b.Valid() && a.comp == b.comp
    ensures yes <==> a.size == b.size && Included(a.comp, a.Elements(), b.Elements())
    ensures |b.Elements()| < WORD ==>
              (yes <==> forall k :: Has(a.comp, a.Elements(), k) <==> Has(a.comp, b.Elements(), k))
  {
    yes := false;
    if a.size == b.size {
      yes := IsSubset(a, b);
    }
    EqualityByCounting(a.comp, a.Elements(), b.Elements());
  }

  /** For sets small enough for their counters, equal counts and inclusion are equality. */
  lemma EqualityByCounting(cmp: Comparator, s: seq<Blob>, t: seq<Blob>)
    requires ThreeWay(cmp) && Sorted(cmp, s) && Sorted(cmp, t)
    ensures |t| < WORD ==>
              (Wrap(|s|) == Wrap(|t|) && Included(cmp, s, t) <==> forall k :: Has(cmp, s, k) <==> Has(cmp, t, k))
  {
    if Included(cmp, s, t) { SubsetCardinality(cmp, s, t); }
    if forall k :: Has(cmp, s, k) <==> Has(cmp, t, k) {
      SelfIncluded(cmp, s, t);
      SelfIncluded(cmp, t, s);
      SubsetCardinality(cmp, s, t);
      SubsetCardinality(cmp, t, s);
    }
  }

  ghost predicate SameElements(cmp: Comparator, s: seq<Blob>, t: seq<Blob>) {
    forall k :: Has(cmp, s, k) <==> Has(cmp, t, k)
  }

  /** What `IsEqual` answers. */
  ghost predicate CountedEqual(cmp: Comparator, s: seq<Blob>, t: seq<Blob>) {
    Wrap(|s|) == Wrap(|t|) && Included(cmp, s, t)
  }

  ghost predicate DecidesAgainst(cmp: Comparator, s: seq<Blob>, t: seq<Blob>) {
    Sorted(cmp, s) ==> (CountedEqual(cmp, s, t) <==> SameElements(cmp, s, t))
  }

  /** Counting decides equality with a second set against every first set exactly when the
      32-bit count of the second set has not wrapped. */
  lemma CountingDecidesExactly(cmp: Comparator, t: seq<Blob>)
    requires ThreeWay(cmp) && Sorted(cmp, t)
    ensures (forall s :: DecidesAgainst(cmp, s, t)) <==> |t| < WORD
  {
    if |t| < WORD {
      forall s ensures DecidesAgainst(cmp, s, t) {
        if Sorted(cmp, s) { EqualityByCounting(cmp, s, t); }
      }
    } else {
      WithoutFirstWord(cmp, t);
      assert !DecidesAgainst(cmp, t[WORD..], t);
    }
  }

  /** Without its first 2^32 elements a set has the same count, is included and not equal. */
  lemma WithoutFirstWord(cmp: Comparator, t: seq<Blob>)
    requires ThreeWay(cmp) && Sorted(cmp, t) && |t| >= WORD
    ensures Sorted(cmp, t[WORD..]) && CountedEqual(cmp, t[WORD..], t) && !SameElements(cmp, t[WORD..], t)
  {
    var s := t[WORD..];
    assert |t| == |s| + WORD;
    forall i | 0 <= i < |t| ensures cmp(t[i], t[i]) == 0 { Mirror(cmp, t[i], t[i]); }
    forall k | k in s ensures Has(cmp, t, k) {
      var i :| 0 <= i < |s| && s[i] == k;
      assert t[WORD + i] == k;
    }
    assert Has(cmp, t, t[0]);
    forall i | 0 <= i < |s| ensures cmp(t[0], s[i]) != 0 { assert s[i] == t[WORD + i]; }
  }

  lemma SelfIncluded(cmp: Comparator, s: seq<Blob>, t: seq<Blob>)
    requires ThreeWay(cmp) && forall k :: Has(cmp, s, k) ==> Has(cmp, t, k)
    ensures Included(cmp, s, t)
  {
    forall k | k in s ensures Has(cmp, t, k) {
      var i :| 0 <= i < |s| && s[i] == k;
      Mirror(cmp, k, k);
      assert Has(cmp, s, k);
    }
  }
}
