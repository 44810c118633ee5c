/** What serialization/serialization.c writes: nested lists, level by level. */
module Records {
  import opened Words
  import opened Ordering

  type Bytes = seq<byte>

  // ---------- 32-bit words, low byte first ----------

  function Low(n: nat): byte {
    n % 256
  }

  function Word(n: nat): (b: Bytes)
    ensures |b| == 4
  {
    var w := Wrap(n);
    [Low(w), Low(w / 256), Low(w / 256 / 256), Low(w / 256 / 256 / 256)]
  }

  function Number(b: Bytes): (n: nat)
    requires |b| == 4
    ensures n < WORD
  {
    var (p, q, r, s) := (b[0] as int, b[1] as int, b[2] as int, b[3] as int);
    p + 256 * (q + 256 * (r + 256 * s))
  }

  lemma Digits(n: int)
    requires 0 <= n < WORD
    ensures n == n % 256 + 256 * (n / 256 % 256 + 256 * (n / 256 / 256 % 256 + 256 * (n / 256 / 256 / 256)))
    ensures n / 256 / 256 / 256 < 256
  {
    var q := n / 256;
    var r := q / 256;
    assert n == 256 * q + n % 256 && q == 256 * r + q % 256 && r == 256 * (r / 256) + r % 256;
  }

  lemma NumberOfWord(n: nat)
    requires n < WORD
    ensures Number(Word(n)) == n
  {
    WrapSmall(n);
    Digits(n);
  }

  lemma WordsDiffer(m: nat, n: nat)
    requires m < n < WORD
    ensures Word(m) != Word(n)
  {
    NumberOfWord(m);
    NumberOfWord(n);
  }

  function Power256(j: nat): (p: nat)
    ensures p > 0
  {
    if j == 0 then 1 else 256 * Power256(j - 1)
  }

  /** The four bytes of a 32-bit number, the lowest first: byte `j` counts multiples of 256^j. */
  function LittleEndian(n: nat): (b: Bytes)
    ensures |b| == 4
  {
    seq(4, j requires j >= 0 => n / Power256(j) % 256)
  }

  lemma Quotients(n: nat)
    ensures n / 256 / 256 == n / 65536 && n / 256 / 256 / 256 == n / 16777216
  {
    var q := n / 256;
    var r := q / 256;
    var t := r / 256;
    assert n == 65536 * r + (256 * (q % 256) + n % 256) && 256 * (q % 256) + n % 256 < 65536;
    assert r == 256 * t + r % 256;
    assert n == 16777216 * t + (65536 * (r % 256) + 256 * (q % 256) + n % 256);
    assert 65536 * (r % 256) + 256 * (q % 256) + n % 256 < 16777216;
  }

  /** Counters and sizes are written low byte first, as they lie in memory. */
  lemma WordIsLittleEndian(n: nat)
    requires n < WORD
    ensures Word(n) == LittleEndian(n)
  {
    WrapSmall(n);
    Quotients(n);
    assert Power256(1) == 256 && Power256(2) == 65536 && Power256(3) == 16777216;
    assert LittleEndian(n) == [n % 256, n / 256 % 256, n / 65536 % 256, n / 16777216 % 256];
  }

  // ---------- items ----------

  /** The bytes "__listdesc" at the start of a list descriptor. */
  const MAGIC: Bytes := [95, 95, 108, 105, 115, 116, 100, 101, 115, 99]

  /** A descriptor has 40 bytes: the magic, six bytes of padding, head and tail of eight bytes
      each, the size, four bytes of padding. */
  const DESCRIPTOR := 40
  const LINKS_FROM := 16
  const LINKS_TO := 36

  /** q__List_islist */
  predicate IsList(b: Bytes) {
    |b| >= DESCRIPTOR && b[..|MAGIC|] == MAGIC
  }

  /** A list element: plain bytes, or bytes that start with a descriptor and the list it leads
      to.  `rest` is a descriptor item's bytes without the links, that is without head, tail and
      size.  A Wild item is a descriptor whose links lead nowhere. */
  datatype Item = Plain(bytes: Bytes) | Nested(rest: Bytes, list: seq<Item>) | Wild(bytes: Bytes)

  /** Lists that a program can build: sizes and counters fit into 32 bits, only descriptors look
      like descriptors, and all links are good. */
  predicate Proper(items: seq<Item>) {
    |items| < WORD && forall i :: 0 <= i < |items| ==> ProperItem(items[i])
  }

  predicate ProperItem(item: Item) {
    match item
    case Plain(b) => |b| < WORD && !IsList(b)
    case Nested(rest, list) =>
      && DESCRIPTOR <= |rest| + (LINKS_TO - LINKS_FROM) < WORD && rest[..|MAGIC|] == MAGIC && Proper(list)
    case Wild(_) => false
  }

  /** The elements below an item. */
  function Sub(item: Item): seq<Item> {
    if item.Nested? then item.list else []
  }

  // ---------- places ----------

  /** An item and the counters on the way to it, the last one its own. */
  datatype Place = Place(path: Bytes, item: Item)

  /** The addresses of the first and last node of the list at a path, as they lie in memory. */
  type Addresses = Bytes -> Bytes

  ghost predicate TwoPointers(addr: Addresses) {
    forall p :: |addr(p)| == 16
  }

  function NoLinks(): Bytes {
    seq(LINKS_TO - LINKS_FROM, _ => 0)
  }

  function Links(addr: Addresses, p: Place): Bytes {
    if Sub(p.item) == [] then NoLinks() else addr(p.path) + Word(|Sub(p.item)|)
  }

  /** The bytes of an item in memory. */
  function Raw(addr: Addresses, p: Place): Bytes {
    match p.item
    case Plain(b) => b
    case Wild(b) => b
    case Nested(rest, list) =>
      if |rest| < LINKS_FROM then rest else rest[..LINKS_FROM] + Links(addr, p) + rest[LINKS_FROM..]
  }

  /** The items of depth `k` below a list whose elements are numbered from `first`, from left to
      right. */
  function Row(items: seq<Item>, prefix: Bytes, first: nat, k: nat): seq<Place>
    decreases items
  {
    if items == [] then [] else
      (if k == 0 then [Place(prefix + Word(first), items[0])]
       else if items[0].Nested? then Row(items[0].list, prefix + Word(first), 0, k - 1)
       else [])
      + Row(items[1..], prefix, first + 1, k)
  }

  /** The number of levels; an empty list has one too. */
  function Depth(items: seq<Item>): (d: nat)
    ensures d > 0
    decreases items
  {
    if items == [] then 1 else
      var d := if items[0].Nested? then 1 + Depth(items[0].list) else 1;
      if d > Depth(items[1..]) then d else Depth(items[1..])
  }

  lemma {:induction false} BelowDepth(items: seq<Item>, prefix: Bytes, first: nat, k: nat)
    requires k >= Depth(items)
    ensures Row(items, prefix, first, k) == []
    decreases items
  {
    if items != [] {
      if items[0].Nested? { BelowDepth(items[0].list, prefix + Word(first), 0, k - 1); }
      BelowDepth(items[1..], prefix, first + 1, k);
    }
  }

  lemma {:induction false} RowConcat(a: seq<Item>, b: seq<Item>, prefix: Bytes, first: nat, k: nat)
    ensures Row(a + b, prefix, first, k) == Row(a, prefix, first, k) + Row(b, prefix, first + |a|, k)
  {
    if a == [] {
      assert a + b == b;
    } else {
      assert (a + b)[1..] == a[1..] + b;
      RowConcat(a[1..], b, prefix, first + 1, k);
    }
  }

  lemma {:induction false} DepthConcat(a: seq<Item>, b: seq<Item>)
    ensures Depth(a + b) == if Depth(a) > Depth(b) then Depth(a) else Depth(b)
  {
    if a == [] {
      assert a + b == b;
    } else {
      assert (a + b)[1..] == a[1..] + b;
      DepthConcat(a[1..], b);
    }
  }

  // ---------- one row below the other ----------

  function Children(p: Place): seq<Place> {
    Row(Sub(p.item), p.path, 0, 0)
  }

  function Below(row: seq<Place>): seq<Place> {
    if row == [] then [] else Children(row[0]) + Below(row[1..])
  }

  lemma {:induction false} BelowConcat(a: seq<Place>, b: seq<Place>)
    ensures Below(a + b) == Below(a) + Below(b)
  {
    if a == [] {
      assert a + b == b;
    } else {
      assert (a + b)[1..] == a[1..] + b;
      BelowConcat(a[1..], b);
      assert Children(a[0]) + (Below(a[1..]) + Below(b)) == Children(a[0]) + Below(a[1..]) + Below(b);
    }
  }

  /** The rows that the encoder's recursion collects are the rows in breadth: each is what lies
      below the one before. */
  lemma {:induction false} RowBelow(items: seq<Item>, prefix: Bytes, first: nat, k: nat)
    ensures Row(items, prefix, first, k + 1) == Below(Row(items, prefix, first, k))
    decreases items
  {
    if items != [] {
      var path, rest := prefix + Word(first), Row(items[1..], prefix, first + 1, k);
      var head := if k == 0 then [Place(path, items[0])]
                  else if items[0].Nested? then Row(items[0].list, path, 0, k - 1) else [];
      RowBelow(items[1..], prefix, first + 1, k);
      if k == 0 {
        assert Below([Place(path, items[0])]) == Children(Place(path, items[0])) + [];
      } else if items[0].Nested? {
        RowBelow(items[0].list, path, 0, k - 1);
      }
      BelowConcat(head, rest);
    }
  }

  // ---------- paths ----------

  function Parent(path: Bytes): Bytes
    requires |path| >= 4
  {
    path[..|path| - 4]
  }

  /** Proper items at paths of `n` bytes. */
  ghost predicate RowFits(row: seq<Place>, n: nat) {
    forall i :: 0 <= i < |row| ==> ProperItem(row[i].item) && |row[i].path| == n
  }

  lemma {:induction false} RowOfProper(items: seq<Item>, prefix: Bytes, first: nat, k: nat)
    requires forall i :: 0 <= i < |items| ==> ProperItem(items[i])
    ensures RowFits(Row(items, prefix, first, k), |prefix| + 4 * (k + 1))
    decreases items
  {
    if items != [] {
      assert ProperItem(items[0]) && (items[0].Nested? ==> Proper(items[0].list));
      if items[0].Nested? && k > 0 { RowOfProper(items[0].list, prefix + Word(first), 0, k - 1); }
      RowOfProper(items[1..], prefix, first + 1, k);
    }
  }

  ghost predicate DistinctPaths(row: seq<Place>) {
    forall i, j :: 0 <= i < j < |row| ==> row[i].path != row[j].path
  }

  lemma {:induction false} ChildAt(items: seq<Item>, prefix: Bytes, first: nat)
    ensures var row := Row(items, prefix, first, 0);
            |row| == |items| && forall i :: 0 <= i < |row| ==> row[i] == Place(prefix + Word(first + i), items[i])
  {
    if items != [] {
      ChildAt(items[1..], prefix, first + 1);
      var row := Row(items, prefix, first, 0);
      assert forall i :: 0 < i < |row| ==> row[i] == Row(items[1..], prefix, first + 1, 0)[i - 1];
    }
  }

  lemma ChildrenDistinct(p: Place)
    requires |Sub(p.item)| < WORD
    ensures DistinctPaths(Children(p))
    ensures forall i :: 0 <= i < |Children(p)| ==> |Children(p)[i].path| >= 4 && Parent(Children(p)[i].path) == p.path
  {
    var row := Children(p);
    ChildAt(Sub(p.item), p.path, 0);
    forall i, j | 0 <= i < j < |row| ensures row[i].path != row[j].path {
      WordsDiffer(i, j);
      assert row[i].path[|p.path|..] == Word(i) && row[j].path[|p.path|..] == Word(j);
    }
    forall i | 0 <= i < |row| ensures |row[i].path| >= 4 && Parent(row[i].path) == p.path {
      assert row[i].path == p.path + Word(i);
    }
  }

  /** Everything below a row has its parent in the row. */
  lemma {:induction false} ParentInRow(row: seq<Place>, i: nat) returns (j: nat)
    requires (forall m :: 0 <= m < |row| ==> |Sub(row[m].item)| < WORD) && i < |Below(row)|
    ensures j < |row| && |Below(row)[i].path| >= 4 && Parent(Below(row)[i].path) == row[j].path
  {
    ChildrenDistinct(row[0]);
    if i < |Children(row[0])| {
      assert Below(row)[i] == Children(row[0])[i];
      j := 0;
    } else {
      assert Below(row)[i] == Below(row[1..])[i - |Children(row[0])|];
      j := ParentInRow(row[1..], i - |Children(row[0])|);
      j := j + 1;
    }
  }

  lemma {:induction false} BelowDistinct(row: seq<Place>)
    requires DistinctPaths(row) && forall m :: 0 <= m < |row| ==> |Sub(row[m].item)| < WORD
    ensures DistinctPaths(Below(row))
  {
    if row != [] {
      var a, b, t := Children(row[0]), Below(row[1..]), Below(row);
      ChildrenDistinct(row[0]);
      BelowDistinct(row[1..]);
      forall i, j | 0 <= i < j < |t| ensures t[i].path != t[j].path {
        if i < |a| <= j {
          var m := ParentInRow(row[1..], j - |a|);
          assert t[j] == b[j - |a|] && t[i] == a[i];
          assert row[1..][m] == row[m + 1];
        } else if j < |a| {
          assert t[i] == a[i] && t[j] == a[j];
        } else {
          assert t[i] == b[i - |a|] && t[j] == b[j - |a|];
        }
      }
    }
  }

  lemma SubsFit(row: seq<Place>, n: nat)
    requires RowFits(row, n)
    ensures forall m :: 0 <= m < |row| ==> |Sub(row[m].item)| < WORD
  {
    forall m | 0 <= m < |row| ensures |Sub(row[m].item)| < WORD {
      assert ProperItem(row[m].item) && (row[m].item.Nested? ==> Proper(row[m].item.list));
    }
  }

  lemma NextRowDistinct(items: seq<Item>, k: nat)
    requires RowFits(Row(items, [], 0, k), 4 * (k + 1)) && DistinctPaths(Row(items, [], 0, k))
    ensures DistinctPaths(Row(items, [], 0, k + 1))
  {
    RowBelow(items, [], 0, k);
    SubsFit(Row(items, [], 0, k), 4 * (k + 1));
    BelowDistinct(Row(items, [], 0, k));
  }

  lemma TopRowDistinct(items: seq<Item>)
    requires Proper(items)
    ensures DistinctPaths(Row(items, [], 0, 0))
  {
    ChildrenDistinct(Place([], Nested([], items)));
  }

  /** No two items of a level have the same path. */
  lemma {:induction false} RowDistinct(items: seq<Item>, k: nat)
    requires Proper(items)
    ensures DistinctPaths(Row(items, [], 0, k))
  {
    if k == 0 {
      TopRowDistinct(items);
    } else {
      RowDistinct(items, k - 1);
      RowOfProper(items, [], 0, k - 1);
      NextRowDistinct(items, k - 1);
    }
  }

  // ---------- siblings ----------

  /** The items of a row that have the parent `q`, in their order. */
  function Family(row: seq<Place>, q: Bytes): seq<Item> {
    if row == [] then []
    else (if |row[0].path| >= 4 && Parent(row[0].path) == q then [row[0].item] else []) + Family(row[1..], q)
  }

  lemma {:induction false} FamilyConcat(a: seq<Place>, b: seq<Place>, q: Bytes)
    ensures Family(a + b, q) == Family(a, q) + Family(b, q)
  {
    if a == [] {
      assert a + b == b;
    } else {
      assert (a + b)[1..] == a[1..] + b;
      FamilyConcat(a[1..], b, q);
    }
  }

  lemma {:induction false} FamilyOfChildren(items: seq<Item>, p: Bytes, first: nat, q: Bytes)
    ensures Family(Row(items, p, first, 0), q) == if p == q then items else []
  {
    if items != [] {
      var path, rest := p + Word(first), Row(items[1..], p, first + 1, 0);
      FamilyOfChildren(items[1..], p, first + 1, q);
      assert Parent(path) == p;
      assert ([Place(path, items[0])] + rest)[1..] == rest;
      assert items == [items[0]] + items[1..];
    }
  }

  lemma {:induction false} NoFamily(row: seq<Place>, q: Bytes)
    requires forall i :: 0 <= i < |row| ==> row[i].path != q
    ensures Family(Below(row), q) == []
  {
    if row != [] {
      FamilyConcat(Children(row[0]), Below(row[1..]), q);
      FamilyOfChildren(Sub(row[0].item), row[0].path, 0, q);
      NoFamily(row[1..], q);
    }
  }

  /** The first place's children, and what the others have below them. */
  lemma FamilySplit(row: seq<Place>, q: Bytes)
    requires row != []
    ensures Family(Below(row), q) == (if row[0].path == q then Sub(row[0].item) else []) + Family(Below(row[1..]), q)
  {
    FamilyConcat(Children(row[0]), Below(row[1..]), q);
    FamilyOfChildren(Sub(row[0].item), row[0].path, 0, q);
  }

  lemma DistinctRest(row: seq<Place>)
    requires DistinctPaths(row) && row != []
    ensures DistinctPaths(row[1..]) && forall i :: 0 <= i < |row[1..]| ==> row[1..][i].path != row[0].path
  {}

  /** Grouping the next row by prefix gives back every item's own list. */
  lemma {:induction false} FamilyBelow(row: seq<Place>, j: nat)
    requires DistinctPaths(row) && j < |row|
    ensures Family(Below(row), row[j].path) == Sub(row[j].item)
  {
    DistinctRest(row);
    FamilySplit(row, row[j].path);
    if j == 0 {
      NoFamily(row[1..], row[0].path);
      assert Sub(row[0].item) + [] == Sub(row[0].item);
    } else {
      assert row[j] == row[1..][j - 1];
      FamilyBelow(row[1..], j - 1);
    }
  }

  lemma FamilyOfPlace(items: seq<Item>, k: nat, j: nat)
    requires Proper(items) && j < |Row(items, [], 0, k)|
    ensures var p := Row(items, [], 0, k)[j]; Family(Row(items, [], 0, k + 1), p.path) == Sub(p.item)
  {
    RowDistinct(items, k);
    RowBelow(items, [], 0, k);
    FamilyBelow(Row(items, [], 0, k), j);
  }

  // ---------- records ----------

  function Record(addr: Addresses, p: Place): Bytes {
    p.path + Word(|Raw(addr, p)|) + Raw(addr, p)
  }

  /** A level's buffer: its records from left to right. */
  function Buffer(addr: Addresses, row: seq<Place>): Bytes {
    if row == [] then [] else Record(addr, row[0]) + Buffer(addr, row[1..])
  }

  lemma {:induction false} BufferConcat(addr: Addresses, a: seq<Place>, b: seq<Place>)
    ensures Buffer(addr, a + b) == Buffer(addr, a) + Buffer(addr, b)
  {
    if a == [] {
      assert a + b == b;
    } else {
      assert (a + b)[1..] == a[1..] + b;
      BufferConcat(addr, a[1..], b);
      assert Record(addr, a[0]) + (Buffer(addr, a[1..]) + Buffer(addr, b)) ==
             Record(addr, a[0]) + Buffer(addr, a[1..]) + Buffer(addr, b);
    }
  }

  lemma RawFits(addr: Addresses, p: Place)
    requires TwoPointers(addr) && ProperItem(p.item)
    ensures |Raw(addr, p)| < WORD && (IsList(Raw(addr, p)) <==> p.item.Nested?)
  {
    if p.item.Nested? {
      assert Raw(addr, p)[..|MAGIC|] == p.item.rest[..|MAGIC|];
    }
  }

  // ---------- reading an item back ----------

  /** What memory with these bytes is: a descriptor without links is an empty list. */
  function Read(b: Bytes): Item {
    if !IsList(b) then Plain(b)
    else if b[LINKS_FROM..LINKS_TO] == NoLinks() then Nested(b[..LINKS_FROM] + b[LINKS_TO..], [])
    else Wild(b)
  }

  /** The same after head, tail and size have been overwritten with those of a list. */
  function Relinked(b: Bytes, list: seq<Item>): Item
    requires |b| >= LINKS_TO
  {
    Nested(b[..LINKS_FROM] + b[LINKS_TO..], list)
  }

  /** An item's bytes give the item back, given the list that belongs to it. */
  lemma ReadBack(addr: Addresses, p: Place)
    requires TwoPointers(addr) && ProperItem(p.item)
    ensures var b := Raw(addr, p);
            if Sub(p.item) == [] then Read(b) == p.item
            else |b| >= LINKS_TO && Relinked(b, Sub(p.item)) == p.item
  {
    RawFits(addr, p);
    if p.item.Nested? {
      var b, rest := Raw(addr, p), p.item.rest;
      assert |Links(addr, p)| == LINKS_TO - LINKS_FROM;
      assert b[..LINKS_FROM] == rest[..LINKS_FROM] && b[LINKS_TO..] == rest[LINKS_FROM..];
      assert b[LINKS_FROM..LINKS_TO] == Links(addr, p);
      assert rest[..LINKS_FROM] + rest[LINKS_FROM..] == rest;
    }
  }
}
