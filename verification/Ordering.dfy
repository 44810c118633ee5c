/** Keys, comparators and strictly ascending sequences.

    The containers store sized blobs and order them with a three-way comparator that the
    caller supplies.  Two different blobs may compare as equal, so the laws below are those
    of a total preorder and nothing here assumes that equal blobs are identical. */
module Ordering {

  type byte = x: int | 0 <= x < 256

  /** A sized piece of memory: a data pointer together with its length. */
  datatype Blob = Blob(bytes: seq<byte>)

  /** positive: a > b; zero: a = b; negative: a < b */
  type Comparator = (Blob, Blob) -> int

  ghost predicate Mirrored(cmp: Comparator, a: Blob, b: Blob) {
    cmp(a, b) < 0 <==> cmp(b, a) > 0
  }

  ghost predicate Chained(cmp: Comparator, a: Blob, b: Blob, c: Blob) {
    cmp(a, b) <= 0 && cmp(b, c) <= 0 ==> cmp(a, c) <= 0
  }

  /** The laws a three-way comparator obeys. */
  ghost predicate ThreeWay(cmp: Comparator) {
    && (forall a, b :: Mirrored(cmp, a, b))
    && (forall a, b, c :: Chained(cmp, a, b, c))
  }

  lemma Mirror(cmp: Comparator, a: Blob, b: Blob)
    requires ThreeWay(cmp)
    ensures cmp(a, b) < 0 <==> cmp(b, a) > 0
    ensures cmp(a, b) == 0 <==> cmp(b, a) == 0
  {
    assert Mirrored(cmp, a, b) && Mirrored(cmp, b, a);
  }

  lemma Below(cmp: Comparator, a: Blob, b: Blob, c: Blob)
    requires ThreeWay(cmp)
    requires cmp(a, b) <= 0 && cmp(b, c) <= 0
    requires cmp(a, b) < 0 || cmp(b, c) < 0
    ensures cmp(a, c) < 0 && cmp(c, a) > 0
  {
    Mirror(cmp, a, b);
    Mirror(cmp, b, c);
    Mirror(cmp, a, c);
    assert Chained(cmp, a, b, c) && Chained(cmp, b, c, a) && Chained(cmp, c, a, b);
  }

  /** Blobs that compare as equal compare alike with everything. */
  lemma Alike(cmp: Comparator, a: Blob, b: Blob, c: Blob)
    requires ThreeWay(cmp) && cmp(a, b) == 0
    ensures cmp(a, c) < 0 <==> cmp(b, c) < 0
    ensures cmp(a, c) == 0 <==> cmp(b, c) == 0
  {
    Mirror(cmp, a, b);
    Mirror(cmp, a, c);
    Mirror(cmp, b, c);
    assert Chained(cmp, a, b, c) && Chained(cmp, b, a, c);
    assert Chained(cmp, c, a, b) && Chained(cmp, c, b, a);
  }

  /** Every element of `s` is strictly below `k`. */
  ghost predicate AllBelow(cmp: Comparator, s: seq<Blob>, k: Blob) {
    forall i :: 0 <= i < |s| ==> cmp(s[i], k) < 0
  }

  /** Every element of `s` is strictly above `k`. */
  ghost predicate AllAbove(cmp: Comparator, k: Blob, s: seq<Blob>) {
    forall i :: 0 <= i < |s| ==> cmp(k, s[i]) < 0
  }

  ghost predicate Sorted(cmp: Comparator, s: seq<Blob>) {
    forall i, j :: 0 <= i < j < |s| ==> cmp(s[i], s[j]) < 0
  }

  /** `s` holds an element that compares equal to `k`. */
  ghost predicate Has(cmp: Comparator, s: seq<Blob>, k: Blob) {
    exists i :: 0 <= i < |s| && cmp(k, s[i]) == 0
  }

  /** Sortedness of `l + [k] + r`, taken apart and put together again. */
  lemma SortedAround(cmp: Comparator, l: seq<Blob>, k: Blob, r: seq<Blob>)
    requires ThreeWay(cmp)
    ensures Sorted(cmp, l + [k] + r) <==>
            Sorted(cmp, l) && Sorted(cmp, r) && AllBelow(cmp, l, k) && AllAbove(cmp, k, r)
  {
    var s := l + [k] + r;
    if Sorted(cmp, s) {
      forall i | 0 <= i < |l| ensures cmp(l[i], k) < 0 { assert s[i] == l[i] && s[|l|] == k; }
      forall i | 0 <= i < |r| ensures cmp(k, r[i]) < 0 { assert s[|l| + 1 + i] == r[i] && s[|l|] == k; }
      forall i, j | 0 <= i < j < |l| ensures cmp(l[i], l[j]) < 0 { assert s[i] == l[i] && s[j] == l[j]; }
      forall i, j | 0 <= i < j < |r| ensures cmp(r[i], r[j]) < 0 {
        assert s[|l| + 1 + i] == r[i] && s[|l| + 1 + j] == r[j];
      }
    }
    if Sorted(cmp, l) && Sorted(cmp, r) && AllBelow(cmp, l, k) && AllAbove(cmp, k, r) {
      forall i, j | 0 <= i < j < |s| ensures cmp(s[i], s[j]) < 0 {
        if i < |l| && |l| < j { Below(cmp, l[i], k, r[j - |l| - 1]); }
      }
    }
  }

  /** Where `k` belongs: the number of elements of `s` before the first one above `k`. */
  ghost function Slot(cmp: Comparator, s: seq<Blob>, k: Blob): (i: nat)
    ensures i <= |s|
  {
    if s == [] || cmp(k, s[0]) < 0 then 0 else 1 + Slot(cmp, s[1..], k)
  }

  /** `s` with `k` put in its place. */
  ghost function Placed(cmp: Comparator, s: seq<Blob>, k: Blob): seq<Blob> {
    var i := Slot(cmp, s, k);
    s[..i] + [k] + s[i..]
  }

  lemma {:induction false} SlotSplits(cmp: Comparator, s: seq<Blob>, k: Blob)
    requires ThreeWay(cmp) && Sorted(cmp, s)
    ensures forall j :: 0 <= j < Slot(cmp, s, k) ==> cmp(s[j], k) <= 0
    ensures forall j :: Slot(cmp, s, k) <= j < |s| ==> cmp(k, s[j]) < 0
  {
    if s == [] {
    } else if cmp(k, s[0]) < 0 {
      forall j | 0 <= j < |s| ensures cmp(k, s[j]) < 0 {
        if j > 0 { Below(cmp, k, s[0], s[j]); }
      }
    } else {
      var t := s[1..];
      SlotSplits(cmp, t, k);
      Mirror(cmp, k, s[0]);
      forall j | 0 <= j < |s| ensures if j < Slot(cmp, s, k) then cmp(s[j], k) <= 0 else cmp(k, s[j]) < 0 {
        if j > 0 { assert s[j] == t[j - 1]; }
      }
    }
  }

  /** Placing an absent key keeps the order. */
  lemma PlacedIsSorted(cmp: Comparator, s: seq<Blob>, k: Blob)
    requires ThreeWay(cmp) && Sorted(cmp, s) && !Has(cmp, s, k)
    ensures Sorted(cmp, Placed(cmp, s, k))
  {
    var i := Slot(cmp, s, k);
    SlotSplits(cmp, s, k);
    forall j | 0 <= j < i ensures cmp(s[..i][j], k) < 0 {
      assert cmp(k, s[j]) != 0;
      Mirror(cmp, k, s[j]);
    }
    SortedAround(cmp, s[..i], k, s[i..]);
  }

  lemma {:induction false} SlotAfter(cmp: Comparator, a: seq<Blob>, s: seq<Blob>, k: Blob)
    requires ThreeWay(cmp) && AllBelow(cmp, a, k)
    ensures Slot(cmp, a + s, k) == |a| + Slot(cmp, s, k)
  {
    if a == [] {
      assert a + s == s;
    } else {
      Mirror(cmp, a[0], k);
      assert (a + s)[1..] == a[1..] + s;
      SlotAfter(cmp, a[1..], s, k);
    }
  }

  lemma {:induction false} SlotBefore(cmp: Comparator, s: seq<Blob>, b: seq<Blob>, k: Blob)
    requires AllAbove(cmp, k, b)
    ensures Slot(cmp, s + b, k) == Slot(cmp, s, k)
  {
    if s != [] {
      assert (s + b)[1..] == s[1..] + b;
      SlotBefore(cmp, s[1..], b, k);
    }
  }

  lemma {:induction false} SlotLeft(cmp: Comparator, l: seq<Blob>, x: Blob, r: seq<Blob>, k: Blob)
    requires cmp(k, x) < 0
    ensures Slot(cmp, l + [x] + r, k) == Slot(cmp, l, k)
  {
    if l != [] {
      SlotLeft(cmp, l[1..], x, r, k);
      assert (l + [x] + r)[1..] == l[1..] + [x] + r;
    }
  }

  lemma {:induction false} SlotRight(cmp: Comparator, l: seq<Blob>, x: Blob, r: seq<Blob>, k: Blob)
    requires ThreeWay(cmp) && AllBelow(cmp, l, x) && cmp(k, x) > 0
    ensures Slot(cmp, l + [x] + r, k) == |l| + 1 + Slot(cmp, r, k)
  {
    if l == [] {
      assert (l + [x] + r)[1..] == r;
    } else {
      Mirror(cmp, k, x);
      Below(cmp, l[0], x, k);
      SlotRight(cmp, l[1..], x, r, k);
      assert (l + [x] + r)[1..] == l[1..] + [x] + r;
    }
  }

  /** A key above everything goes to the end. */
  lemma {:induction false} PlacedAtEnd(cmp: Comparator, s: seq<Blob>, k: Blob)
    requires ThreeWay(cmp) && AllBelow(cmp, s, k)
    ensures !Has(cmp, s, k) && Slot(cmp, s, k) == |s| && Placed(cmp, s, k) == s + [k]
  {
    forall i | 0 <= i < |s| ensures cmp(k, s[i]) > 0 { Mirror(cmp, s[i], k); }
    if s != [] {
      PlacedAtEnd(cmp, s[1..], k);
    }
    assert s[..|s|] + [k] + s[|s|..] == s + [k];
  }

  /** Looking for `k` on one side of `x` is enough. */
  lemma HasAround(cmp: Comparator, l: seq<Blob>, x: Blob, r: seq<Blob>, k: Blob)
    requires ThreeWay(cmp) && AllBelow(cmp, l, x) && AllAbove(cmp, x, r)
    ensures Has(cmp, l + [x] + r, k) <==>
            cmp(k, x) == 0 || (cmp(k, x) < 0 && Has(cmp, l, k)) || (cmp(k, x) > 0 && Has(cmp, r, k))
  {
    var s := l + [x] + r;
    if Has(cmp, s, k) {
      var i :| 0 <= i < |s| && cmp(k, s[i]) == 0;
      if i < |l| {
        Below(cmp, k, l[i], x);
      } else if i > |l| {
        assert s[i] == r[i - |l| - 1];
        Mirror(cmp, k, s[i]);
        Below(cmp, x, s[i], k);
      }
    }
    if cmp(k, x) == 0 { assert s[|l|] == x; }
    if Has(cmp, l, k) {
      var i :| 0 <= i < |l| && cmp(k, l[i]) == 0;
      assert s[i] == l[i];
    }
    if Has(cmp, r, k) {
      var i :| 0 <= i < |r| && cmp(k, r[i]) == 0;
      assert s[|l| + 1 + i] == r[i];
    }
  }
}
