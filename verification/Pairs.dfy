/** Ascending sequences of key/value pairs. */
module Pairs {
  import opened Sequences
  import opened Ordering

  datatype Pair = Pair(key: Blob, value: Blob)

  function KeysOf(s: seq<Pair>): (k: seq<Blob>)
    ensures |k| == |s| && forall i :: 0 <= i < |s| ==> k[i] == s[i].key
  {
    seq(|s|, i requires 0 <= i < |s| => s[i].key)
  }

  lemma KeysOfConcat(a: seq<Pair>, b: seq<Pair>)
    ensures KeysOf(a + b) == KeysOf(a) + KeysOf(b)
  {}

  lemma KeysOfAround(a: seq<Pair>, p: Pair, b: seq<Pair>)
    ensures KeysOf(a + [p] + b) == KeysOf(a) + [p.key] + KeysOf(b)
  {}

  ghost predicate InOrder(cmp: Comparator, s: seq<Pair>) {
    Sorted(cmp, KeysOf(s))
  }

  ghost predicate HasKey(cmp: Comparator, s: seq<Pair>, k: Blob) {
    Has(cmp, KeysOf(s), k)
  }

  ghost predicate Lower(cmp: Comparator, s: seq<Pair>, k: Blob) {
    AllBelow(cmp, KeysOf(s), k)
  }

  ghost predicate Upper(cmp: Comparator, k: Blob, s: seq<Pair>) {
    AllAbove(cmp, k, KeysOf(s))
  }

  /** `s` with `p` put in the place its key gives it. */
  ghost function With(cmp: Comparator, s: seq<Pair>, p: Pair): seq<Pair> {
    Inserted(s, Slot(cmp, KeysOf(s), p.key), p)
  }

  /** `s` without the pair whose key equals `k`, if there is one. */
  ghost function Without(cmp: Comparator, s: seq<Pair>, k: Blob): seq<Pair> {
    if s == [] then [] else if cmp(k, s[0].key) == 0 then s[1..] else [s[0]] + Without(cmp, s[1..], k)
  }

  /** Order, taken apart at a pair and put together again. */
  lemma InOrderAround(cmp: Comparator, a: seq<Pair>, p: Pair, b: seq<Pair>)
    requires ThreeWay(cmp)
    ensures InOrder(cmp, a + [p] + b) <==>
            InOrder(cmp, a) && InOrder(cmp, b) && Lower(cmp, a, p.key) && Upper(cmp, p.key, b)
  {
    KeysOfAround(a, p, b);
    SortedAround(cmp, KeysOf(a), p.key, KeysOf(b));
  }

  /** Putting an absent key in keeps the order. */
  lemma WithInOrder(cmp: Comparator, s: seq<Pair>, x: Pair)
    requires ThreeWay(cmp) && InOrder(cmp, s) && !HasKey(cmp, s, x.key)
    ensures InOrder(cmp, With(cmp, s, x))
  {
    var i := Slot(cmp, KeysOf(s), x.key);
    PlacedIsSorted(cmp, KeysOf(s), x.key);
    assert KeysOf(With(cmp, s, x)) == Placed(cmp, KeysOf(s), x.key);
  }

  /** `k` belongs between `a` and `b`. */
  ghost predicate Between(cmp: Comparator, a: seq<Pair>, k: Blob, b: seq<Pair>) {
    Lower(cmp, a, k) && Upper(cmp, k, b)
  }

  lemma BetweenHas(cmp: Comparator, a: seq<Pair>, s: seq<Pair>, b: seq<Pair>, k: Blob)
    requires ThreeWay(cmp) && Between(cmp, a, k, b)
    ensures HasKey(cmp, a + s + b, k) <==> HasKey(cmp, s, k)
  {
    var q := a + s + b;
    forall i | 0 <= i < |a| ensures cmp(k, KeysOf(a)[i]) != 0 { Mirror(cmp, KeysOf(a)[i], k); }
    assert forall i :: 0 <= i < |a| ==> KeysOf(q)[i] == KeysOf(a)[i];
    assert forall i :: |a + s| <= i < |q| ==> KeysOf(q)[i] == KeysOf(b)[i - |a + s|];
    if HasKey(cmp, q, k) {
      var i :| 0 <= i < |q| && cmp(k, KeysOf(q)[i]) == 0;
      assert KeysOf(q)[i] == KeysOf(s)[i - |a|];
    }
    if HasKey(cmp, s, k) {
      var i :| 0 <= i < |s| && cmp(k, KeysOf(s)[i]) == 0;
      assert KeysOf(q)[|a| + i] == KeysOf(s)[i];
    }
  }

  lemma BetweenWith(cmp: Comparator, a: seq<Pair>, s: seq<Pair>, b: seq<Pair>, x: Pair)
    requires ThreeWay(cmp) && Between(cmp, a, x.key, b)
    ensures With(cmp, a + s + b, x) == a + With(cmp, s, x) + b
  {
    KeysOfConcat(a, s);
    KeysOfConcat(a + s, b);
    SlotAfter(cmp, KeysOf(a), KeysOf(s), x.key);
    SlotBefore(cmp, KeysOf(a + s), KeysOf(b), x.key);
  }

  lemma BetweenWithout(cmp: Comparator, a: seq<Pair>, s: seq<Pair>, b: seq<Pair>, k: Blob)
    requires ThreeWay(cmp) && Between(cmp, a, k, b)
    ensures Without(cmp, a + s + b, k) == a + Without(cmp, s, k) + b
  {
    forall i | 0 <= i < |a| ensures cmp(k, KeysOf(a)[i]) != 0 { Mirror(cmp, KeysOf(a)[i], k); }
    assert a + s + b == a + (s + b);
    WithoutRight(cmp, a, s + b, k);
    if HasKey(cmp, s, k) {
      WithoutLeft(cmp, s, b, k);
    } else {
      WithoutRight(cmp, s, b, k);
      WithoutAbsent(cmp, s, k);
      WithoutAbsent(cmp, b, k);
    }
    assert a + (Without(cmp, s, k) + b) == a + Without(cmp, s, k) + b;
  }

  /** Order of a middle part, and of the whole when the middle part is replaced by one that
      keeps clear of its surroundings. */
  lemma InOrderParts(cmp: Comparator, a: seq<Pair>, s: seq<Pair>, b: seq<Pair>)
    requires InOrder(cmp, a + s + b)
    ensures InOrder(cmp, a) && InOrder(cmp, s) && InOrder(cmp, b)
  {
    var q := a + s + b;
    forall i | 0 <= i < |a| ensures KeysOf(a)[i] == KeysOf(q)[i] {}
    forall i | 0 <= i < |s| ensures KeysOf(s)[i] == KeysOf(q)[|a| + i] {}
    forall i | 0 <= i < |b| ensures KeysOf(b)[i] == KeysOf(q)[|a| + |s| + i] {}
  }

  lemma {:induction false} WithoutLeft(cmp: Comparator, a: seq<Pair>, b: seq<Pair>, k: Blob)
    requires HasKey(cmp, a, k)
    ensures Without(cmp, a + b, k) == Without(cmp, a, k) + b
  {
    var i :| 0 <= i < |a| && cmp(k, KeysOf(a)[i]) == 0;
    assert (a + b)[1..] == a[1..] + b;
    if cmp(k, a[0].key) != 0 {
      assert KeysOf(a[1..])[i - 1] == KeysOf(a)[i];
      WithoutLeft(cmp, a[1..], b, k);
      assert [a[0]] + (Without(cmp, a[1..], k) + b) == [a[0]] + Without(cmp, a[1..], k) + b;
    }
  }

  lemma {:induction false} WithoutRight(cmp: Comparator, a: seq<Pair>, b: seq<Pair>, k: Blob)
    requires !HasKey(cmp, a, k)
    ensures Without(cmp, a + b, k) == a + Without(cmp, b, k)
  {
    if a == [] {
      assert a + b == b;
    } else {
      assert cmp(k, KeysOf(a)[0]) != 0;
      assert (a + b)[1..] == a[1..] + b;
      forall i | 0 <= i < |a[1..]| ensures cmp(k, KeysOf(a[1..])[i]) != 0 { assert cmp(k, KeysOf(a)[i + 1]) != 0; }
      WithoutRight(cmp, a[1..], b, k);
    }
  }

  lemma WithoutAbsent(cmp: Comparator, s: seq<Pair>, k: Blob)
    requires !HasKey(cmp, s, k)
    ensures Without(cmp, s, k) == s
  {
    WithoutRight(cmp, s, [], k);
    assert s + [] == s && Without(cmp, [], k) == [];
  }

  /** Removal of the pair itself. */
  lemma WithoutHere(cmp: Comparator, a: seq<Pair>, p: Pair, b: seq<Pair>, k: Blob)
    requires ThreeWay(cmp) && Lower(cmp, a, p.key) && cmp(k, p.key) == 0
    ensures Without(cmp, a + [p] + b, k) == a + b
  {
    forall i | 0 <= i < |a| ensures cmp(k, KeysOf(a)[i]) != 0 {
      Mirror(cmp, k, p.key);
      Below(cmp, KeysOf(a)[i], p.key, k);
    }
    assert a + [p] + b == a + ([p] + b);
    WithoutRight(cmp, a, [p] + b, k);
    assert ([p] + b)[1..] == b;
  }

  lemma WithLower(cmp: Comparator, s: seq<Pair>, x: Pair, k: Blob)
    requires Lower(cmp, s, k) && cmp(x.key, k) < 0
    ensures Lower(cmp, With(cmp, s, x), k)
  {
    var i, u := Slot(cmp, KeysOf(s), x.key), With(cmp, s, x);
    forall j | 0 <= j < |u| ensures cmp(KeysOf(u)[j], k) < 0 {
      if j < i {
        assert u[j] == s[j] && cmp(KeysOf(s)[j], k) < 0;
      } else if j > i {
        assert u[j] == s[j - 1] && cmp(KeysOf(s)[j - 1], k) < 0;
      }
    }
  }

  /** Removal takes out one position, one whose key equals `k`. */
  lemma {:induction false} WithoutIsRemoval(cmp: Comparator, s: seq<Pair>, k: Blob) returns (i: nat)
    requires HasKey(cmp, s, k)
    ensures i < |s| && cmp(k, s[i].key) == 0 && Without(cmp, s, k) == Removed(s, i)
  {
    if cmp(k, s[0].key) == 0 {
      i := 0;
    } else {
      var j :| 0 <= j < |s| && cmp(k, KeysOf(s)[j]) == 0;
      assert KeysOf(s[1..])[j - 1] == KeysOf(s)[j];
      i := WithoutIsRemoval(cmp, s[1..], k);
      i := i + 1;
    }
  }

  lemma RemovedInOrder(cmp: Comparator, s: seq<Pair>, i: nat)
    requires InOrder(cmp, s) && i < |s|
    ensures InOrder(cmp, Removed(s, i))
  {
    var u := Removed(s, i);
    forall j, k | 0 <= j < k < |u| ensures cmp(KeysOf(u)[j], KeysOf(u)[k]) < 0 {
      var (j', k') := (if j < i then j else j + 1, if k < i then k else k + 1);
      assert KeysOf(u)[j] == KeysOf(s)[j'] && KeysOf(u)[k] == KeysOf(s)[k'];
    }
  }

  lemma WithoutInOrder(cmp: Comparator, s: seq<Pair>, k: Blob)
    requires InOrder(cmp, s)
    ensures InOrder(cmp, Without(cmp, s, k))
    ensures |Without(cmp, s, k)| == if HasKey(cmp, s, k) then |s| - 1 else |s|
  {
    if HasKey(cmp, s, k) {
      var i := WithoutIsRemoval(cmp, s, k);
      RemovedInOrder(cmp, s, i);
    } else {
      WithoutAbsent(cmp, s, k);
    }
  }
}
