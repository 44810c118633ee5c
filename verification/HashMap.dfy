/** The chained hash map of containers/unordered_map.c, and the hash function that
    serialization/serialization.c uses with it. */
module HashMap {
  import opened Options
  import opened Words
  import opened Sequences
  import opened Ordering

  type Key = seq<byte>
  type Hash = Key -> nat

  datatype Entry<V> = Entry(key: Key, value: V)
  /** Where an entry is: position `index` of chain `chain`. */
  datatype Slot = Slot(chain: nat, index: nat)

  // ---------- chains ----------

  /** memcmp over the length of `key` */
  predicate SameKey(stored: Key, key: Key)
    requires |key| <= |stored|
  {
    stored[..|key|] == key
  }

  /** The position of the entry for `key`; |chain| when there is none. */
  function Find<V>(chain: seq<Entry<V>>, key: Key): (i: nat)
    ensures i <= |chain| && (i < |chain| ==> chain[i].key == key)
    ensures forall j :: 0 <= j < i ==> chain[j].key != key
  {
    if chain == [] || chain[0].key == key then 0 else 1 + Find(chain[1..], key)
  }

  ghost predicate DistinctKeys<V>(chain: seq<Entry<V>>) {
    forall i, j :: 0 <= i < j < |chain| ==> chain[i].key != chain[j].key
  }

  /** Chain number `b` holds keys of its own hash value only, each of them once. */
  ghost predicate ChainFits<V>(chain: seq<Entry<V>>, b: nat, hash: Hash, keysize: nat) {
    && DistinctKeys(chain)
    && forall i :: 0 <= i < |chain| ==> |chain[i].key| == keysize && hash(chain[i].key) == b
  }

  /** What a chain says about a key. */
  function Lookup<V>(chain: seq<Entry<V>>, key: Key): Option<V> {
    var i := Find(chain, key);
    if i < |chain| then Some(chain[i].value) else None
  }

  function Get<V>(contents: map<Key, V>, key: Key): Option<V> {
    if key in contents then Some(contents[key]) else None
  }

  lemma {:induction false} LookupConcat<V>(a: seq<Entry<V>>, b: seq<Entry<V>>, key: Key)
    ensures Lookup(a + b, key) == if Lookup(a, key).Some? then Lookup(a, key) else Lookup(b, key)
  {
    if a == [] {
      assert a + b == b;
    } else {
      assert (a + b)[1..] == a[1..] + b;
      LookupConcat(a[1..], b, key);
    }
  }

  lemma LookupAround<V>(a: seq<Entry<V>>, e: Entry<V>, b: seq<Entry<V>>, key: Key)
    ensures Lookup(a + [e] + b, key) ==
            if Lookup(a, key).Some? then Lookup(a, key) else if e.key == key then Some(e.value) else Lookup(b, key)
  {
    LookupConcat(a + [e], b, key);
    LookupConcat(a, [e], key);
  }

  lemma LookupAbsent<V>(chain: seq<Entry<V>>, key: Key)
    requires forall i :: 0 <= i < |chain| ==> chain[i].key != key
    ensures Lookup(chain, key) == None
  {}

  ghost predicate Answers<V>(chain: seq<Entry<V>>, was: seq<Entry<V>>, key: Key, v: Option<V>, k: Key) {
    Lookup(chain, k) == if k == key then v else Lookup(was, k)
  }

  /** `chain` gives the same answers as `was`, but `v` for `key`. */
  ghost predicate Differs<V>(chain: seq<Entry<V>>, was: seq<Entry<V>>, key: Key, v: Option<V>) {
    forall k :: Answers(chain, was, key, v, k)
  }

  /** A new entry at the end. */
  lemma Appended<V>(chain: seq<Entry<V>>, e: Entry<V>, b: nat, hash: Hash, keysize: nat)
    requires ChainFits(chain, b, hash, keysize) && Lookup(chain, e.key) == None
    requires |e.key| == keysize && hash(e.key) == b
    ensures ChainFits(chain + [e], b, hash, keysize) && Differs(chain + [e], chain, e.key, Some(e.value))
  {
    forall k ensures Answers(chain + [e], chain, e.key, Some(e.value), k) { LookupConcat(chain, [e], k); }
  }

  /** A new value for an entry. */
  lemma Updated<V>(chain: seq<Entry<V>>, i: nat, v: V, b: nat, hash: Hash, keysize: nat)
    requires ChainFits(chain, b, hash, keysize) && i < |chain|
    ensures var t := chain[i := Entry(chain[i].key, v)];
            ChainFits(t, b, hash, keysize) && Differs(t, chain, chain[i].key, Some(v))
  {
    var (l, e, r) := (chain[..i], chain[i], chain[i + 1..]);
    var t := chain[i := Entry(e.key, v)];
    assert chain == l + [e] + r && t == l + [Entry(e.key, v)] + r;
    LookupAbsent(l, e.key);
    forall k ensures Answers(t, chain, e.key, Some(v), k) {
      LookupAround(l, e, r, k);
      LookupAround(l, Entry(e.key, v), r, k);
    }
  }

  /** An entry less. */
  lemma Dropped<V>(chain: seq<Entry<V>>, i: nat, b: nat, hash: Hash, keysize: nat)
    requires ChainFits(chain, b, hash, keysize) && i < |chain|
    ensures ChainFits(Removed(chain, i), b, hash, keysize) && Differs(Removed(chain, i), chain, chain[i].key, None)
  {
    var (l, e, r) := (chain[..i], chain[i], chain[i + 1..]);
    assert chain == l + [e] + r && Removed(chain, i) == l + r;
    LookupAbsent(l, e.key);
    LookupAbsent(r, e.key);
    forall k ensures Answers(l + r, chain, e.key, None, k) {
      LookupAround(l, e, r, k);
      LookupConcat(l, r, k);
    }
    assert forall j :: 0 <= j < |l + r| ==> (l + r)[j] == chain[if j < i then j else j + 1];
  }

  // ---------- all chains ----------

  ghost predicate KeyFits<V>(chains: seq<seq<Entry<V>>>, hash: Hash, keysize: nat, contents: map<Key, V>, k: Key) {
    && (k in contents ==> |k| == keysize)
    && (|k| == keysize ==> hash(k) < |chains| && Lookup(chains[hash(k)], k) == Get(contents, k))
  }

  /** Chain by chain and key by key, the chains say what the map says. */
  ghost predicate Represents<V>(chains: seq<seq<Entry<V>>>, hash: Hash, keysize: nat, contents: map<Key, V>) {
    && (forall b {:trigger ChainFits(chains[b], b, hash, keysize)} ::
          0 <= b < |chains| ==> ChainFits(chains[b], b, hash, keysize))
    && (forall k :: KeyFits(chains, hash, keysize, contents, k))
  }

  /** Each key of the map is in its own chain, once, and in no other. */
  lemma OwnChainOnce<V>(chains: seq<seq<Entry<V>>>, hash: Hash, keysize: nat, contents: map<Key, V>, b: nat, i: nat)
    requires Represents(chains, hash, keysize, contents) && b < |chains| && i < |chains[b]|
    ensures var k := chains[b][i].key;
            k in contents && contents[k] == chains[b][i].value && b == hash(k) && i == Find(chains[hash(k)], k)
  {
    assert ChainFits(chains[b], b, hash, keysize);
    assert KeyFits(chains, hash, keysize, contents, chains[b][i].key);
  }

  /** Changing one chain at one key changes the map at that key. */
  lemma ChainChanged<V>(chains: seq<seq<Entry<V>>>, hash: Hash, keysize: nat, contents: map<Key, V>,
                        key: Key, chain: seq<Entry<V>>, contents': map<Key, V>)
    requires Represents(chains, hash, keysize, contents) && |key| == keysize && hash(key) < |chains|
    requires ChainFits(chain, hash(key), hash, keysize)
    requires Differs(chain, chains[hash(key)], key, Get(contents', key))
    requires contents' - {key} == contents - {key}
    ensures Represents(chains[hash(key) := chain], hash, keysize, contents')
  {
    var t := chains[hash(key) := chain];
    forall b | 0 <= b < |t| ensures ChainFits(t[b], b, hash, keysize) {
      assert ChainFits(chains[b], b, hash, keysize);
    }
    forall k ensures KeyFits(t, hash, keysize, contents', k) {
      assert KeyFits(chains, hash, keysize, contents, k);
      assert Answers(chain, chains[hash(key)], key, Get(contents', key), k);
      if k != key {
        assert k in contents <==> k in contents - {key};
        assert k in contents' <==> k in contents' - {key};
      }
    }
  }

  lemma PutKeeps<V>(chains: seq<seq<Entry<V>>>, hash: Hash, keysize: nat, contents: map<Key, V>, key: Key, v: V)
    requires Represents(chains, hash, keysize, contents) && |key| == keysize && hash(key) < |chains|
    ensures var chain := chains[hash(key)];
            var i := Find(chain, key);
            var t := if i < |chain| then chain[i := Entry(key, v)] else chain + [Entry(key, v)];
            && Represents(chains[hash(key) := t], hash, keysize, contents[key := v])
            && |contents[key := v]| == (if i < |chain| then |contents| else |contents| + 1)
            && (i < |chain| <==> key in contents)
  {
    var chain := chains[hash(key)];
    var i := Find(chain, key);
    assert ChainFits(chain, hash(key), hash, keysize);
    assert KeyFits(chains, hash, keysize, contents, key);
    if i < |chain| {
      Updated(chain, i, v, hash(key), hash, keysize);
      ChainChanged(chains, hash, keysize, contents, key, chain[i := Entry(key, v)], contents[key := v]);
      SameSize(contents, contents[key := v]);
    } else {
      Appended(chain, Entry(key, v), hash(key), hash, keysize);
      ChainChanged(chains, hash, keysize, contents, key, chain + [Entry(key, v)], contents[key := v]);
    }
  }

  lemma DropKeeps<V>(chains: seq<seq<Entry<V>>>, hash: Hash, keysize: nat, contents: map<Key, V>, key: Key)
    requires Represents(chains, hash, keysize, contents) && key in contents && hash(key) < |chains|
    ensures var chain := chains[hash(key)];
            var i := Find(chain, key);
            && i < |chain| && Represents(chains[hash(key) := Removed(chain, i)], hash, keysize, contents - {key})
            && |contents - {key}| == |contents| - 1
  {
    var chain := chains[hash(key)];
    var i := Find(chain, key);
    assert ChainFits(chain, hash(key), hash, keysize);
    assert KeyFits(chains, hash, keysize, contents, key);
    Dropped(chain, i, hash(key), hash, keysize);
    ChainChanged(chains, hash, keysize, contents, key, Removed(chain, i), contents - {key});
    OneLess(contents, key);
  }

  lemma SameSize<V>(a: map<Key, V>, b: map<Key, V>)
    requires a.Keys == b.Keys
    ensures |a| == |b|
  {
    assert |a| == |a.Keys| && |b| == |b.Keys|;
  }

  lemma OneLess<V>(a: map<Key, V>, key: Key)
    requires key in a
    ensures |a - {key}| == |a| - 1
  {
    var b := a - {key};
    assert b[key := a[key]] == a;
  }

  /** Every key gets one of the chains. */
  ghost predicate InRange(hash: Hash, maxhashv: nat) {
    forall k :: hash(k) < maxhashv
  }

  /** A map from keys of `keysize` bytes. */
  class Map<V> {
    const listArray: array<seq<Entry<V>>>
    var counts: nat
    const hashf: Hash
    ghost const keysize: nat
    ghost var contents: map<Key, V>

    ghost predicate Valid()
      reads this, listArray
    {
      && Represents(listArray[..], hashf, keysize, contents)
      && counts == Wrap(|contents|)
    }

    /** containers/unordered_map.c:6-19 */
    constructor (maxhashv: nat, hashf: Hash, ghost keysize: nat)
      requires InRange(hashf, maxhashv)
      ensures Valid() && contents == map[] && fresh(listArray)
      ensures this.hashf == hashf && this.keysize == keysize
    {
      this.hashf, this.keysize := hashf, keysize;
      counts, contents := 0, map[];
      listArray := new seq<Entry<V>>[maxhashv](_ => []);
    }

    /** The entry for a key (containers/unordered_map.c:95-104). */
    method PtrAt(key: Key) returns (slot: Option<Slot>)
      requires Valid() && |key| == keysize
      ensures slot.Some? <==> key in contents
      ensures slot.Some? ==> Holds(slot.value, key)
    {
      var hashv := hashf(key);
      ghost var chains := listArray[..];
      assert KeyFits(chains, hashf, keysize, contents, key) && ChainFits(chains[hashv], hashv, hashf, keysize);
      var i := 0;
      while i < |listArray[hashv]|
        invariant i <= Find(listArray[hashv], key)
      {
        if SameKey(listArray[hashv][i].key, key) {
          return Some(Slot(hashv, i));
        }
        i := i + 1;
      }
      slot := None;
    }

    /** The slot is the place of the entry for `key`. */
    ghost predicate Holds(slot: Slot, key: Key)
      reads this, listArray
    {
      && |key| == keysize && slot.chain == hashf(key) < listArray.Length
      && slot.index == Find(listArray[slot.chain], key) < |listArray[slot.chain]|
      && key in contents && listArray[slot.chain][slot.index].value == contents[key]
    }

    /** Overwrites the value through a pointer to the entry. */
    method Store(slot: Slot, value: V, ghost key: Key)
      requires Valid() && Holds(slot, key)
      modifies this`contents, listArray
      ensures Valid() && contents == old(contents)[key := value] && contents.Keys == old(contents.Keys)
    {
      PutKeeps(listArray[..], hashf, keysize, contents, key, value);
      SetChain(slot.chain, listArray[slot.chain][slot.index := Entry(listArray[slot.chain][slot.index].key, value)]);
      contents := contents[key := value];
    }

    /** Overwrites one chain of the array. */
    method SetChain(b: nat, chain: seq<Entry<V>>)
      requires b < listArray.Length
      modifies listArray
      ensures listArray[..] == old(listArray[..])[b := chain]
    {
      listArray[b] := chain;
    }

    /** containers/unordered_map.c:61-76 */
    method Insert(key: Key, value: V) returns (status: int)
      requires Valid() && |key| == keysize
      modifies this`counts, this`contents, listArray
      ensures Valid() && status == 0 && contents == old(contents)[key := value]
    {
      assert KeyFits(listArray[..], hashf, keysize, contents, key);
      var hashv := hashf(key);
      var slot := PtrAt(key);
      if slot.Some? {
        Store(slot.value, value, key);
        return 0;
      }
      PutKeeps(listArray[..], hashf, keysize, contents, key, value);
      CountUp(counts, |contents|, Wrap(counts + 1), |contents[key := value]|);
      SetChain(hashv, listArray[hashv] + [Entry(key, value)]);
      counts := Wrap(counts + 1);
      contents := contents[key := value];
      status := 0;
    }

    /** containers/unordered_map.c:78-93 */
    method Erase(key: Key) returns (status: int)
      requires Valid() && |key| == keysize
      modifies this`counts, this`contents, listArray
      ensures Valid() && contents == old(contents) - {key}
      ensures status == if key in old(contents) then 0 else -1
    {
      var hashv := hashf(key);
      var slot := PtrAt(key);
      if slot.None? {
        assert contents - {key} == contents;
        return -1;
      }
      DropKeeps(listArray[..], hashf, keysize, contents, key);
      CountDown(counts, |contents|, Wrap(counts - 1), |contents - {key}|);
      SetChain(hashv, Removed(listArray[hashv], slot.value.index));
      counts := Wrap(counts - 1);
      contents := contents - {key};
      status := 0;
    }

    /** containers/unordered_map.c:45-59 */
    method Clear()
      requires Valid()
      modifies this`counts, this`contents, listArray
      ensures Valid() && contents == map[] && counts == 0
    {
      EmptyRepresents(listArray[..], hashf, keysize, contents);
      var iter := 0;
      ghost var n := listArray.Length;
      while iter < listArray.Length
        invariant iter <= n
        invariant forall b :: 0 <= b < iter ==> listArray[b] == []
      {
        if |listArray[iter]| != 0 {
          listArray[iter] := [];
        }
        iter := iter + 1;
      }
      counts, contents := 0, map[];
      assert listArray[..] == seq(n, _ => []);
    }
  }

  lemma EmptyRepresents<V>(chains: seq<seq<Entry<V>>>, hash: Hash, keysize: nat, contents: map<Key, V>)
    requires Represents(chains, hash, keysize, contents)
    ensures Represents<V>(seq(|chains|, _ => []), hash, keysize, map[])
  {
    var t: seq<seq<Entry<V>>> := seq(|chains|, _ => []);
    forall k ensures KeyFits(t, hash, keysize, map[], k) {
      assert KeyFits(chains, hash, keysize, contents, k);
    }
  }

  // ---------- q__uhashf (serialization/serialization.c:75-83) ----------

  const BASE := 131

  /** The sum that the loop would build without wrap-around. */
  function Unwrapped(s: seq<byte>): (n: nat)
    ensures n % BASE == 0
  {
    if s == [] then 0 else (Unwrapped(s[..|s| - 1]) + s[|s| - 1]) * BASE
  }

  function PowerOfBase(n: nat): nat {
    if n == 0 then 1 else BASE * PowerOfBase(n - 1)
  }

  /** Each byte times 131 to the number of bytes from it to the end, added up. */
  function WeightedSum(s: seq<byte>): nat {
    if s == [] then 0 else s[0] * PowerOfBase(|s|) + WeightedSum(s[1..])
  }

  lemma {:induction false} WeightedSumOfLast(s: seq<byte>, x: byte)
    ensures WeightedSum(s + [x]) == (WeightedSum(s) + x) * BASE
  {
    if s == [] {
      assert [] + [x] == [x] && [x][1..] == [];
      assert PowerOfBase(1) == BASE * PowerOfBase(0);
    } else {
      assert (s + [x])[1..] == s[1..] + [x] && (s + [x])[0] == s[0];
      WeightedSumOfLast(s[1..], x);
      assert s[0] * PowerOfBase(|s| + 1) == s[0] * PowerOfBase(|s|) * BASE;
    }
  }

  /** What the loop adds up, in closed form. */
  lemma {:induction false} UnwrappedIsWeightedSum(s: seq<byte>)
    ensures Unwrapped(s) == WeightedSum(s)
  {
    if s != [] {
      var init, last := s[..|s| - 1], s[|s| - 1];
      assert s == init + [last];
      UnwrappedIsWeightedSum(init);
      WeightedSumOfLast(init, last);
    }
  }

  function Uhash(s: seq<byte>): (h: nat)
    ensures h < BASE
  {
    Wrap(Unwrapped(s)) % BASE
  }

  lemma UhashInRange()
    ensures InRange(Uhash, BASE)
  {}

  method Uhashf(str: seq<byte>) returns (h: nat)
    ensures h == Uhash(str) && h < BASE
    // the bytes weighted with powers of 131, in 32 bits, modulo 131
    ensures h == WeightedSum(str) % WORD % BASE
  {
    UnwrappedIsWeightedSum(str);
    var tmpr := 0;
    var i := 0;
    while i < |str|
      invariant i <= |str| && tmpr == Wrap(Unwrapped(str[..i]))
    {
      assert str[..i + 1][..i] == str[..i];
      WrapStep(Unwrapped(str[..i]), str[i]);
      tmpr := Wrap(tmpr + str[i]);
      tmpr := Wrap(tmpr * 131);
      i := i + 1;
    }
    assert str[..|str|] == str;
    return tmpr % 131;
  }

  lemma WrapStep(n: nat, c: nat)
    ensures Wrap(Wrap(Wrap(n) + c) * BASE) == Wrap((n + c) * BASE)
  {
    var q := (Wrap(n) + c) / WORD;
    var p := n / WORD;
    assert n == p * WORD + Wrap(n);
    assert Wrap(n) + c == q * WORD + Wrap(Wrap(n) + c);
    assert (n + c) * BASE == Wrap(Wrap(n) + c) * BASE + ((p + q) * BASE) * WORD;
    WrapMultiple(Wrap(Wrap(n) + c) * BASE, (p + q) * BASE);
  }

  lemma {:induction false} WrapMultiple(a: nat, m: nat)
    ensures Wrap(a + m * WORD) == Wrap(a)
  {
    if m > 0 {
      WrapMultiple(a, m - 1);
      assert a + m * WORD == a + (m - 1) * WORD + WORD;
    }
  }
}
