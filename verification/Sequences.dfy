/** Small facts about sequences that several containers share. */
module Sequences {

  ghost predicate NoDuplicates<T>(q: seq<T>) {
    forall i, j :: 0 <= i < j < |q| ==> q[i] != q[j]
  }

  ghost predicate Disjoint<T>(a: seq<T>, b: seq<T>) {
    forall x :: x in a ==> x !in b
  }

  lemma NoDuplicatesConcat<T>(a: seq<T>, b: seq<T>)
    ensures NoDuplicates(a + b) <==> NoDuplicates(a) && NoDuplicates(b) && Disjoint(a, b)
  {
    var q := a + b;
    if NoDuplicates(q) {
      forall i, j | 0 <= i < j < |a| ensures a[i] != a[j] { assert q[i] != q[j]; }
      forall i, j | 0 <= i < j < |b| ensures b[i] != b[j] { assert q[|a| + i] != q[|a| + j]; }
      forall x | x in a ensures x !in b {
        var i :| 0 <= i < |a| && a[i] == x;
        forall j | 0 <= j < |b| ensures b[j] != x { assert q[i] != q[|a| + j]; }
      }
    }
    if NoDuplicates(a) && NoDuplicates(b) && Disjoint(a, b) {
      forall i, j | 0 <= i < j < |q| ensures q[i] != q[j] {
        if i < |a| <= j { assert a[i] in a && b[j - |a|] in b; }
      }
    }
  }

  lemma NoDuplicatesAround<T>(a: seq<T>, x: T, b: seq<T>)
    ensures NoDuplicates(a + [x] + b) <==>
            NoDuplicates(a) && NoDuplicates(b) && x !in a && x !in b && Disjoint(a, b)
  {
    NoDuplicatesConcat(a + [x], b);
    NoDuplicatesConcat(a, [x]);
    assert x in a + [x];
  }

  /** `q` with `x` put in at position `i`. */
  function Inserted<T>(q: seq<T>, i: nat, x: T): seq<T>
    requires i <= |q|
  {
    q[..i] + [x] + q[i..]
  }

  /** `q` without its element at position `i`. */
  function Removed<T>(q: seq<T>, i: nat): seq<T>
    requires i < |q|
  {
    q[..i] + q[i + 1..]
  }

  /** Prefix and suffix of a concatenation, cut on either side of its seam. */
  lemma Cut<T>(a: seq<T>, b: seq<T>, i: nat)
    requires i <= |a + b|
    ensures i <= |a| ==> (a + b)[..i] == a[..i] && (a + b)[i..] == a[i..] + b
    ensures i >= |a| ==> (a + b)[..i] == a + b[..i - |a|] && (a + b)[i..] == b[i - |a|..]
  {}

  lemma InsertedLeft<T>(l: seq<T>, r: seq<T>, i: nat, y: T)
    requires i <= |l|
    ensures Inserted(l + r, i, y) == Inserted(l, i, y) + r
  {
    Cut(l, r, i);
    assert l[..i] + [y] + (l[i..] + r) == l[..i] + [y] + l[i..] + r;
  }

  lemma InsertedRight<T>(l: seq<T>, r: seq<T>, i: nat, y: T)
    requires i <= |r|
    ensures Inserted(l + r, |l| + i, y) == l + Inserted(r, i, y)
  {
    Cut(l, r, |l| + i);
    assert l + r[..i] + [y] + r[i..] == l + (r[..i] + [y] + r[i..]);
  }

  lemma InsertedBefore<T>(l: seq<T>, x: T, r: seq<T>, i: nat, y: T)
    requires i <= |l|
    ensures Inserted(l + [x] + r, i, y) == Inserted(l, i, y) + [x] + r
  {
    InsertedLeft(l + [x], r, i, y);
    InsertedLeft(l, [x], i, y);
  }

  lemma RemovedLeft<T>(l: seq<T>, r: seq<T>, i: nat)
    requires i < |l|
    ensures Removed(l + r, i) == Removed(l, i) + r
  {
    Cut(l, r, i);
    Cut(l, r, i + 1);
    assert l[..i] + (l[i + 1..] + r) == l[..i] + l[i + 1..] + r;
  }

  lemma RemovedRight<T>(l: seq<T>, r: seq<T>, i: nat)
    requires i < |r|
    ensures Removed(l + r, |l| + i) == l + Removed(r, i)
  {
    Cut(l, r, |l| + i);
    Cut(l, r, |l| + i + 1);
    assert l + r[..i] + r[i + 1..] == l + (r[..i] + r[i + 1..]);
  }

  lemma RemovedAround<T>(l: seq<T>, x: T, r: seq<T>, i: nat)
    requires i < |l| + 1 + |r|
    ensures i < |l| ==> Removed(l + [x] + r, i) == Removed(l, i) + [x] + r
    ensures i == |l| ==> Removed(l + [x] + r, i) == l + r
    ensures i > |l| ==> Removed(l + [x] + r, i) == l + [x] + Removed(r, i - |l| - 1)
  {
    if i <= |l| {
      RemovedLeft(l + [x], r, i);
      if i < |l| { RemovedLeft(l, [x], i); } else { RemovedRight(l, [x], 0); }
    } else {
      RemovedRight(l + [x], r, i - |l| - 1);
    }
  }

  lemma RemovedElements<T>(q: seq<T>, i: nat)
    requires i < |q| && NoDuplicates(q)
    ensures forall y :: y in Removed(q, i) <==> y != q[i] && y in q
    ensures NoDuplicates(Removed(q, i))
  {
    assert q == q[..i] + [q[i]] + q[i + 1..];
    NoDuplicatesAround(q[..i], q[i], q[i + 1..]);
    NoDuplicatesConcat(q[..i], q[i + 1..]);
  }

  /** The last `n` elements, last one first. */
  function Backwards<T>(q: seq<T>, n: nat): (b: seq<T>)
    requires n <= |q|
    ensures |b| == n && forall j :: 0 <= j < n ==> b[j] == q[|q| - 1 - j]
  {
    seq(n, j requires 0 <= j < n => q[|q| - 1 - j])
  }

  lemma BackwardsOn<T>(q: seq<T>, n: nat)
    requires n < |q|
    ensures Backwards(q, n + 1) == Backwards(q, n) + [q[|q| - 1 - n]]
  {}

  /** The first position of `x` in `q`, or |q|. */
  ghost function IndexOf<T>(q: seq<T>, x: T): (i: nat)
    ensures i <= |q| && (x in q ==> i < |q| && q[i] == x)
    ensures x !in q ==> i == |q|
  {
    if q == [] || q[0] == x then 0 else 1 + IndexOf(q[1..], x)
  }

  lemma IndexOfUnique<T>(q: seq<T>, i: nat)
    requires NoDuplicates(q) && i < |q|
    ensures IndexOf(q, q[i]) == i
  {
    assert q[i] in q;
  }
}
