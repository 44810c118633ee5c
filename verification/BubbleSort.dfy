/** The restarting bubble sort of algorithm/bubble_sort.c. */
module BubbleSort {
  import opened Sequences
  import opened LinkedList

  /** The sort exchanges two neighbours whenever the comparator's answer is not zero. */
  type Comparator<!T> = (T, T) -> int

  predicate Exchanges<T(!new)>(cmp: Comparator<T>, a: T, b: T) {
    cmp(a, b) != 0
  }

  ghost predicate OneWay<T(!new)>(cmp: Comparator<T>, a: T, b: T) {
    Exchanges(cmp, a, b) ==> !Exchanges(cmp, b, a)
  }

  /** No two elements are exchanged both ways round. */
  ghost predicate Asymmetric<T(!new)>(cmp: Comparator<T>) {
    forall a, b :: OneWay(cmp, a, b)
  }

  ghost predicate Passes<T(!new)>(cmp: Comparator<T>, a: T, b: T, c: T) {
    !Exchanges(cmp, a, b) && !Exchanges(cmp, b, c) ==> !Exchanges(cmp, a, c)
  }

  /** Not zero exactly when a > b, for a strict weak order >. */
  ghost predicate StrictWeak<T(!new)>(cmp: Comparator<T>) {
    Asymmetric(cmp) && forall a, b, c :: Passes(cmp, a, b, c)
  }

  // ---------- one pass ----------

  /** The position of the first neighbours to exchange; |s| when there are none. */
  function FirstPair<T(!new)>(cmp: Comparator<T>, s: seq<T>): (i: nat)
    ensures i == |s| || i + 1 < |s|
    ensures i < |s| ==> Exchanges(cmp, s[i], s[i + 1])
    ensures forall j :: 0 <= j < i && j + 1 < |s| ==> !Exchanges(cmp, s[j], s[j + 1])
  {
    if |s| < 2 then |s| else if Exchanges(cmp, s[0], s[1]) then 0 else 1 + FirstPair(cmp, s[1..])
  }

  predicate Done<T(!new)>(cmp: Comparator<T>, s: seq<T>) {
    FirstPair(cmp, s) == |s|
  }

  /** One pass from the head: exchanges the first pair that asks for it. */
  function Pass<T(!new)>(cmp: Comparator<T>, s: seq<T>): (t: seq<T>)
    ensures |t| == |s|
  {
    var i := FirstPair(cmp, s);
    if i == |s| then s else Swapped(s, i, i + 1)
  }

  function Passed<T(!new)>(cmp: Comparator<T>, s: seq<T>, n: nat): (t: seq<T>)
    ensures |t| == |s|
  {
    if n == 0 then s else Pass(cmp, Passed(cmp, s, n - 1))
  }

  // ---------- termination ----------

  /** How many elements of `s` would `x` be exchanged with. */
  function Exchanged<T(!new)>(cmp: Comparator<T>, x: T, s: seq<T>): nat {
    if s == [] then 0 else (if Exchanges(cmp, x, s[0]) then 1 else 0) + Exchanged(cmp, x, s[1..])
  }

  /** The pairs that stand the wrong way round. */
  function Inversions<T(!new)>(cmp: Comparator<T>, s: seq<T>): nat {
    if s == [] then 0 else Exchanged(cmp, s[0], s[1..]) + Inversions(cmp, s[1..])
  }

  lemma SwappedTail<T>(s: seq<T>, i: nat)
    requires 0 < i && i + 1 < |s|
    ensures Swapped(s, i, i + 1)[0] == s[0] && Swapped(s, i, i + 1)[1..] == Swapped(s[1..], i - 1, i)
  {}

  lemma SwappedHead<T>(s: seq<T>)
    requires 1 < |s|
    ensures Swapped(s, 0, 1) == [s[1], s[0]] + s[2..] && s == [s[0], s[1]] + s[2..]
  {}

  lemma {:induction false} ExchangedSwapped<T(!new)>(cmp: Comparator<T>, x: T, s: seq<T>, i: nat)
    requires i + 1 < |s|
    ensures Exchanged(cmp, x, Swapped(s, i, i + 1)) == Exchanged(cmp, x, s)
  {
    if i == 0 {
      var t := Swapped(s, 0, 1);
      SwappedHead(s);
      assert t[1..][1..] == s[1..][1..];
    } else {
      SwappedTail(s, i);
      ExchangedSwapped(cmp, x, s[1..], i - 1);
    }
  }

  /** An exchange removes exactly one inversion. */
  lemma {:induction false} ExchangeRemovesOne<T(!new)>(cmp: Comparator<T>, s: seq<T>, i: nat)
    requires Asymmetric(cmp) && i + 1 < |s| && Exchanges(cmp, s[i], s[i + 1])
    ensures Inversions(cmp, Swapped(s, i, i + 1)) == Inversions(cmp, s) - 1
  {
    if i == 0 {
      var t := Swapped(s, 0, 1);
      SwappedHead(s);
      assert OneWay(cmp, s[0], s[1]);
      assert t[1..][1..] == s[1..][1..];
    } else {
      SwappedTail(s, i);
      ExchangeRemovesOne(cmp, s[1..], i - 1);
      ExchangedSwapped(cmp, s[0], s[1..], i - 1);
    }
  }

  lemma {:induction false} NoInversions<T(!new)>(cmp: Comparator<T>, s: seq<T>)
    requires Inversions(cmp, s) == 0
    ensures Done(cmp, s)
  {
    if |s| >= 2 { NoInversions(cmp, s[1..]); }
  }

  /** As long as there is something to exchange, every pass removes one inversion. */
  lemma PassRemovesOne<T(!new)>(cmp: Comparator<T>, s: seq<T>)
    requires Asymmetric(cmp) && !Done(cmp, s)
    ensures Inversions(cmp, Pass(cmp, s)) == Inversions(cmp, s) - 1
  {
    ExchangeRemovesOne(cmp, s, FirstPair(cmp, s));
  }

  ghost predicate Stops<T(!new)>(cmp: Comparator<T>, s: seq<T>) {
    exists n: nat :: Done(cmp, Passed(cmp, s, n))
  }

  lemma {:induction false} EventuallyDone<T(!new)>(cmp: Comparator<T>, s: seq<T>, n: nat)
    requires Asymmetric(cmp)
    ensures Done(cmp, Passed(cmp, s, n)) || Inversions(cmp, Passed(cmp, s, n)) == Inversions(cmp, s) - n
  {
    if n > 0 {
      EventuallyDone(cmp, s, n - 1);
      if !Done(cmp, Passed(cmp, s, n - 1)) { PassRemovesOne(cmp, Passed(cmp, s, n - 1)); }
    }
  }

  /** Two elements that are exchanged both ways round are exchanged for ever. */
  lemma {:induction false} BackAndForth<T(!new)>(cmp: Comparator<T>, a: T, b: T, n: nat)
    requires Exchanges(cmp, a, b) && Exchanges(cmp, b, a)
    ensures Passed(cmp, [a, b], n) == if n % 2 == 0 then [a, b] else [b, a]
    ensures !Done(cmp, Passed(cmp, [a, b], n))
  {
    if n > 0 { BackAndForth(cmp, a, b, n - 1); }
  }

  /** The sort stops on every list exactly when no two elements are exchanged both ways. */
  lemma StopsExactly<T(!new)>(cmp: Comparator<T>)
    ensures (forall s :: Stops(cmp, s)) <==> Asymmetric(cmp)
  {
    if Asymmetric(cmp) {
      forall s ensures Stops(cmp, s) {
        var n := Inversions(cmp, s);
        EventuallyDone(cmp, s, n);
        if !Done(cmp, Passed(cmp, s, n)) { NoInversions(cmp, Passed(cmp, s, n)); }
      }
    } else {
      var a, b :| !OneWay(cmp, a, b);
      assert !Stops(cmp, [a, b]) by {
        forall n: nat ensures !Done(cmp, Passed(cmp, [a, b], n)) { BackAndForth(cmp, a, b, n); }
      }
    }
  }

  /** A three-way comparator that tells two elements apart is not one to sort with. */
  lemma ThreeWayDoesNotStop<T(!new)>(cmp: Comparator<T>, a: T, b: T)
    requires cmp(a, b) > 0 && cmp(b, a) < 0
    ensures !Stops(cmp, [a, b])
  {
    forall n: nat ensures !Done(cmp, Passed(cmp, [a, b], n)) { BackAndForth(cmp, a, b, n); }
  }

  // ---------- the result ----------

  ghost predicate Ascending<T(!new)>(cmp: Comparator<T>, s: seq<T>) {
    forall i, j :: 0 <= i < j < |s| ==> !Exchanges(cmp, s[i], s[j])
  }

  /** `x` before the first element that it need not be exchanged with. */
  function Insert<T(!new)>(cmp: Comparator<T>, x: T, s: seq<T>): seq<T> {
    if s == [] || !Exchanges(cmp, x, s[0]) then [x] + s else [s[0]] + Insert(cmp, x, s[1..])
  }

  /** A stable sort to compare with. */
  function StableSort<T(!new)>(cmp: Comparator<T>, s: seq<T>): seq<T> {
    if s == [] then [] else Insert(cmp, s[0], StableSort(cmp, s[1..]))
  }

  lemma {:induction false} InsertAscends<T(!new)>(cmp: Comparator<T>, x: T, s: seq<T>)
    requires StrictWeak(cmp) && Ascending(cmp, s)
    ensures Ascending(cmp, Insert(cmp, x, s))
    ensures multiset(Insert(cmp, x, s)) == multiset(s) + multiset{x}
  {
    if s != [] && Exchanges(cmp, x, s[0]) {
      var t := Insert(cmp, x, s[1..]);
      InsertAscends(cmp, x, s[1..]);
      assert s == [s[0]] + s[1..];
      forall i | 0 <= i < |t| ensures !Exchanges(cmp, s[0], t[i]) {
        assert t[i] in multiset(t);
        assert OneWay(cmp, x, s[0]);
        if t[i] != x {
          assert t[i] in s[1..];
          var j :| 0 <= j < |s[1..]| && s[1..][j] == t[i];
          assert s[j + 1] == t[i];
        }
      }
    } else if s != [] {
      forall i | 0 <= i < |s| ensures !Exchanges(cmp, x, s[i]) {
        assert i > 0 ==> Passes(cmp, x, s[0], s[i]);
      }
    }
  }

  lemma {:induction false} StableSortSorts<T(!new)>(cmp: Comparator<T>, s: seq<T>)
    requires StrictWeak(cmp)
    ensures Ascending(cmp, StableSort(cmp, s)) && multiset(StableSort(cmp, s)) == multiset(s)
  {
    if s != [] {
      StableSortSorts(cmp, s[1..]);
      InsertAscends(cmp, s[0], StableSort(cmp, s[1..]));
      assert s == [s[0]] + s[1..];
    }
  }

  /** Elements that are exchanged neither way round count as equal. */
  predicate Level<T(!new)>(cmp: Comparator<T>, a: T, b: T) {
    !Exchanges(cmp, a, b) && !Exchanges(cmp, b, a)
  }

  /** The elements of `s` that are level with `x`, in their order. */
  function LevelWith<T(!new)>(cmp: Comparator<T>, x: T, s: seq<T>): seq<T> {
    if s == [] then [] else (if Level(cmp, x, s[0]) then [s[0]] else []) + LevelWith(cmp, x, s[1..])
  }

  lemma LevelWithFirst<T(!new)>(cmp: Comparator<T>, x: T, y: T, s: seq<T>)
    ensures LevelWith(cmp, x, [y] + s) == (if Level(cmp, x, y) then [y] else []) + LevelWith(cmp, x, s)
  {
    assert ([y] + s)[1..] == s;
  }

  lemma {:induction false} InsertIsStable<T(!new)>(cmp: Comparator<T>, x: T, y: T, s: seq<T>)
    requires StrictWeak(cmp) && Ascending(cmp, s)
    ensures LevelWith(cmp, x, Insert(cmp, y, s)) == (if Level(cmp, x, y) then [y] else []) + LevelWith(cmp, x, s)
  {
    if s != [] && Exchanges(cmp, y, s[0]) {
      var t := Insert(cmp, y, s[1..]);
      InsertIsStable(cmp, x, y, s[1..]);
      LevelWithFirst(cmp, x, s[0], t);
      assert Passes(cmp, y, x, s[0]);
    } else {
      LevelWithFirst(cmp, x, y, s);
    }
  }

  /** Elements that count as equal keep their order. */
  lemma {:induction false} StableSortIsStable<T(!new)>(cmp: Comparator<T>, x: T, s: seq<T>)
    requires StrictWeak(cmp)
    ensures LevelWith(cmp, x, StableSort(cmp, s)) == LevelWith(cmp, x, s)
  {
    if s != [] {
      StableSortSorts(cmp, s[1..]);
      InsertIsStable(cmp, x, s[0], StableSort(cmp, s[1..]));
      StableSortIsStable(cmp, x, s[1..]);
    }
  }

  /** The order of two insertions of exchangeable elements does not matter. */
  lemma {:induction false} InsertsCommute<T(!new)>(cmp: Comparator<T>, a: T, b: T, s: seq<T>)
    requires StrictWeak(cmp) && Ascending(cmp, s) && Exchanges(cmp, a, b)
    ensures Insert(cmp, a, Insert(cmp, b, s)) == Insert(cmp, b, Insert(cmp, a, s))
  {
    assert OneWay(cmp, a, b);
    if s == [] {
      assert [a] + [] == [a] && [b] + [] == [b];
      assert ([b] + [a])[1..] == [a];
    } else {
      assert Passes(cmp, a, s[0], b);
      if Exchanges(cmp, b, s[0]) {
        assert OneWay(cmp, b, s[0]) && Passes(cmp, a, b, s[0]) && Passes(cmp, b, a, s[0]);
        InsertsCommute(cmp, a, b, s[1..]);
      } else {
        assert ([b] + s)[1..] == s;
      }
    }
  }

  lemma {:induction false} ExchangeKeepsSort<T(!new)>(cmp: Comparator<T>, s: seq<T>, i: nat)
    requires StrictWeak(cmp) && i + 1 < |s| && Exchanges(cmp, s[i], s[i + 1])
    ensures StableSort(cmp, Swapped(s, i, i + 1)) == StableSort(cmp, s)
  {
    if i == 0 {
      var t := Swapped(s, 0, 1);
      SwappedHead(s);
      assert t[1..][1..] == s[1..][1..];
      StableSortSorts(cmp, s[1..][1..]);
      InsertsCommute(cmp, s[0], s[1], StableSort(cmp, s[1..][1..]));
    } else {
      SwappedTail(s, i);
      ExchangeKeepsSort(cmp, s[1..], i - 1);
    }
  }

  lemma {:induction false} DoneIsSorted<T(!new)>(cmp: Comparator<T>, s: seq<T>)
    requires Done(cmp, s)
    ensures StableSort(cmp, s) == s
  {
    if s != [] {
      DoneIsSorted(cmp, s[1..]);
      assert s == [s[0]] + s[1..];
    }
  }

  /** With a comparator that is not zero exactly when a > b the list that no pass changes any
      more is the stable sort. */
  lemma {:induction false} PassesSort<T(!new)>(cmp: Comparator<T>, s: seq<T>, n: nat)
    requires StrictWeak(cmp)
    ensures StableSort(cmp, Passed(cmp, s, n)) == StableSort(cmp, s)
    ensures Done(cmp, Passed(cmp, s, n)) ==> Passed(cmp, s, n) == StableSort(cmp, s)
  {
    if n > 0 {
      var t := Passed(cmp, s, n - 1);
      PassesSort(cmp, s, n - 1);
      if !Done(cmp, t) { ExchangeKeepsSort(cmp, t, FirstPair(cmp, t)); }
    }
    if Done(cmp, Passed(cmp, s, n)) { DoneIsSorted(cmp, Passed(cmp, s, n)); }
  }

  lemma {:induction false} AscendingHasNoInversions<T(!new)>(cmp: Comparator<T>, s: seq<T>)
    requires Ascending(cmp, s)
    ensures Inversions(cmp, s) == 0
  {
    if s != [] {
      forall i | 0 <= i < |s[1..]| ensures !Exchanges(cmp, s[0], s[1..][i]) { assert s[1..][i] == s[i + 1]; }
      NothingExchanged(cmp, s[0], s[1..]);
      AscendingHasNoInversions(cmp, s[1..]);
    }
  }

  lemma {:induction false} NothingExchanged<T(!new)>(cmp: Comparator<T>, x: T, s: seq<T>)
    requires forall i :: 0 <= i < |s| ==> !Exchanges(cmp, x, s[i])
    ensures Exchanged(cmp, x, s) == 0
  {
    if s != [] { NothingExchanged(cmp, x, s[1..]); }
  }

  /** The number of exchanges is the number of inversions. */
  lemma {:induction false} NumberOfExchanges<T(!new)>(cmp: Comparator<T>, s: seq<T>, n: nat)
    requires StrictWeak(cmp) && n <= Inversions(cmp, s)
    ensures Inversions(cmp, Passed(cmp, s, n)) == Inversions(cmp, s) - n
    ensures Done(cmp, Passed(cmp, s, n)) <==> n == Inversions(cmp, s)
  {
    if n > 0 {
      NumberOfExchanges(cmp, s, n - 1);
      PassRemovesOne(cmp, Passed(cmp, s, n - 1));
    }
    var t := Passed(cmp, s, n);
    if Done(cmp, t) {
      DoneIsSorted(cmp, t);
      StableSortSorts(cmp, t);
      AscendingHasNoInversions(cmp, t);
    } else if Inversions(cmp, t) == 0 {
      NoInversions(cmp, t);
    }
  }

  lemma {:induction false} DoneStays<T(!new)>(cmp: Comparator<T>, s: seq<T>, n: nat, m: nat)
    requires Done(cmp, Passed(cmp, s, n)) && n <= m
    ensures Passed(cmp, s, m) == Passed(cmp, s, n)
  {
    if n < m { DoneStays(cmp, s, n, m - 1); }
  }

  /** A node of a list, its data and its neighbour. */
  lemma NextOf<T>(desc: List<T>, i: nat)
    requires desc.Valid() && i < |desc.nodes|
    ensures desc.nodes[i].next == (if i + 1 < |desc.nodes| then desc.nodes[i + 1] else null)
    ensures desc.nodes[i].data == desc.Contents()[i] && IndexOf(desc.nodes, desc.nodes[i]) == i
    ensures i + 1 < |desc.nodes| ==>
              desc.nodes[i + 1].data == desc.Contents()[i + 1] && IndexOf(desc.nodes, desc.nodes[i + 1]) == i + 1
  {
    IndexOfUnique(desc.nodes, i);
    if i + 1 < |desc.nodes| { IndexOfUnique(desc.nodes, i + 1); }
  }

  /** The inner loop: walks from the head and exchanges the first pair that asks for it. */
  method OnePass<T(!new)>(desc: List<T>, cmpr: Comparator<T>) returns (done: bool)
    requires desc.Valid() && desc.head != null
    modifies Elems(desc.nodes)`data
    ensures desc.Valid() && desc.Contents() == Pass(cmpr, old(desc.Contents()))
    ensures done == Done(cmpr, old(desc.Contents()))
  {
    ghost var s := desc.Contents();
    done := true;
    var it := desc.head;
    ghost var i := 0;
    while it.next != null
      invariant desc.Valid() && desc.Contents() == s
      invariant i < |s| && it == desc.nodes[i] && i <= FirstPair(cmpr, s)
      decreases |s| - i
    {
      FirstPairFrom(cmpr, s, i);
      NextOf(desc, i);
      if cmpr(it.data, it.next.data) != 0 {
        desc.SwapElem(it, it.next);
        return false;
      }
      it := it.next;
      i := i + 1;
    }
    NextOf(desc, i);
    FirstPairFrom(cmpr, s, i);
  }

  lemma FirstPairFrom<T(!new)>(cmp: Comparator<T>, s: seq<T>, i: nat)
    requires i < |s| && i <= FirstPair(cmp, s)
    ensures i + 1 < |s| ==> (Exchanges(cmp, s[i], s[i + 1]) <==> FirstPair(cmp, s) == i)
    ensures i + 1 == |s| ==> Done(cmp, s)
  {}

  /** After `n` exchanges the list `s` has become `t`; `done` when a pass has found nothing. */
  ghost predicate Progress<T(!new)>(cmp: Comparator<T>, s: seq<T>, t: seq<T>, n: nat, done: bool) {
    t == Passed(cmp, s, n) && n + Inversions(cmp, t) == Inversions(cmp, s) && (done ==> Done(cmp, t))
  }

  lemma OneMore<T(!new)>(cmp: Comparator<T>, s: seq<T>, t: seq<T>, n: nat) returns (t': seq<T>, n': nat)
    requires Asymmetric(cmp) && Progress(cmp, s, t, n, false)
    ensures t' == Pass(cmp, t) && Progress(cmp, s, t', n', Done(cmp, t))
    ensures !Done(cmp, t) ==> Inversions(cmp, t') < Inversions(cmp, t)
  {
    t', n' := Pass(cmp, t), n;
    if !Done(cmp, t) {
      PassRemovesOne(cmp, t);
      n' := n + 1;
    }
  }

  lemma Finished<T(!new)>(cmp: Comparator<T>, s: seq<T>, t: seq<T>, n: nat)
    requires Progress(cmp, s, t, n, true)
    ensures t == Passed(cmp, s, Inversions(cmp, s)) && Done(cmp, t)
    ensures StrictWeak(cmp) ==> t == StableSort(cmp, s)
  {
    DoneStays(cmp, s, n, Inversions(cmp, s));
    if StrictWeak(cmp) { PassesSort(cmp, s, n); }
  }

  /** Sorts in place: the nodes stay where they are and their data move, one exchange for
      every inversion at most. */
  method Sort<T(!new)>(desc: List<T>, cmpr: Comparator<T>)
    requires desc.Valid() && desc.head != null && Asymmetric(cmpr)
    modifies Elems(desc.nodes)`data
    ensures desc.Valid()
    ensures var s := old(desc.Contents());
            && desc.Contents() == Passed(cmpr, s, Inversions(cmpr, s)) && Done(cmpr, desc.Contents())
            && (StrictWeak(cmpr) ==> desc.Contents() == StableSort(cmpr, s))
  {
    ghost var s, n, t := desc.Contents(), 0, desc.Contents();
    var done := false;
    while !done
      invariant desc.Valid() && desc.Contents() == t && Progress(cmpr, s, t, n, done)
      decreases !done, Inversions(cmpr, t)
    {
      ghost var t', n' := OneMore(cmpr, s, t, n);
      done := OnePass(desc, cmpr);
      t, n := t', n';
    }
    Finished(cmpr, s, t, n);
  }
}
