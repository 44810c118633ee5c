/** The bytes that serialization/serialization.c writes, byte by byte: counters and sizes low byte
    first, descriptors with their links in the order of listd.h. */
module Encoding {
  import opened Words
  import opened Ordering
  import opened Records

  // ---------- the way to an item ----------

  /** The counters on the way to an item, the outermost first. */
  type Way = seq<nat>

  function Under(first: nat, ways: seq<Way>): (u: seq<Way>)
    ensures |u| == |ways|
  {
    seq(|ways|, i requires 0 <= i < |ways| => [first] + ways[i])
  }

  /** The ways to the items of depth `k`, from left to right. */
  function Ways(items: seq<Item>, first: nat, k: nat): seq<Way>
    decreases items
  {
    if items == [] then [] else
      (if k == 0 then [[first]]
       else if items[0].Nested? then Under(first, Ways(items[0].list, 0, k - 1))
       else [])
      + Ways(items[1..], first + 1, k)
  }

  /** The way leads to the item: the first counter picks an item of the list, the next one an item
      of that item's list, and so on. */
  predicate LeadsTo(items: seq<Item>, first: nat, way: Way, item: Item)
    decreases |way|
  {
    && way != [] && first <= way[0] < first + |items|
    && var it := items[way[0] - first];
       if |way| == 1 then it == item else it.Nested? && LeadsTo(it.list, 0, way[1..], item)
  }

  /** The counters of a way, four bytes each. */
  function Spelled(way: Way): (b: Bytes)
    ensures |b| == 4 * |way|
  {
    if way == [] then [] else LittleEndian(way[0]) + Spelled(way[1..])
  }

  /** A place's way: as many counters as its depth asks for, leading to its item, and spelled out
      in its path. */
  ghost predicate OnWay(items: seq<Item>, prefix: Bytes, first: nat, k: nat, p: Place, way: Way) {
    |way| == k + 1 && LeadsTo(items, first, way, p.item) && p.path == prefix + Spelled(way)
  }

  ghost predicate AllOnWay(items: seq<Item>, prefix: Bytes, first: nat, k: nat, row: seq<Place>, ways: seq<Way>) {
    |row| == |ways| && forall m :: 0 <= m < |row| ==> OnWay(items, prefix, first, k, row[m], ways[m])
  }

  lemma HeadOnWay(items: seq<Item>, prefix: Bytes, first: nat)
    requires items != [] && first < WORD
    ensures OnWay(items, prefix, first, 0, Place(prefix + Word(first), items[0]), [first])
  {
    WordIsLittleEndian(first);
    assert [first][1..] == [] && LittleEndian(first) + [] == LittleEndian(first);
  }

  lemma OnWayInside(items: seq<Item>, prefix: Bytes, first: nat, k: nat, p: Place, way: Way)
    requires items != [] && first < WORD && items[0].Nested? && k > 0
    requires OnWay(items[0].list, prefix + Word(first), 0, k - 1, p, way)
    ensures OnWay(items, prefix, first, k, p, [first] + way)
  {
    WordIsLittleEndian(first);
    assert ([first] + way)[1..] == way;
    assert prefix + LittleEndian(first) + Spelled(way) == prefix + (LittleEndian(first) + Spelled(way));
  }

  lemma OnWayLater(items: seq<Item>, prefix: Bytes, first: nat, k: nat, p: Place, way: Way)
    requires items != [] && OnWay(items[1..], prefix, first + 1, k, p, way)
    ensures OnWay(items, prefix, first, k, p, way)
  {
    assert items[1..][way[0] - (first + 1)] == items[way[0] - first];
  }

  lemma AllOnWayConcat(items: seq<Item>, prefix: Bytes, first: nat, k: nat, a: seq<Place>, v: seq<Way>, b: seq<Place>,
                       w: seq<Way>)
    requires AllOnWay(items, prefix, first, k, a, v) && AllOnWay(items, prefix, first, k, b, w)
    ensures AllOnWay(items, prefix, first, k, a + b, v + w)
  {}

  lemma AllOnWayLater(items: seq<Item>, prefix: Bytes, first: nat, k: nat, row: seq<Place>, ways: seq<Way>)
    requires items != [] && AllOnWay(items[1..], prefix, first + 1, k, row, ways)
    ensures AllOnWay(items, prefix, first, k, row, ways)
  {
    forall m | 0 <= m < |row| ensures OnWay(items, prefix, first, k, row[m], ways[m]) {
      OnWayLater(items, prefix, first, k, row[m], ways[m]);
    }
  }

  lemma AllOnWayInside(items: seq<Item>, prefix: Bytes, first: nat, k: nat, row: seq<Place>, ways: seq<Way>)
    requires items != [] && first < WORD && items[0].Nested? && k > 0
    requires AllOnWay(items[0].list, prefix + Word(first), 0, k - 1, row, ways)
    ensures AllOnWay(items, prefix, first, k, row, Under(first, ways))
  {
    forall m | 0 <= m < |row| ensures OnWay(items, prefix, first, k, row[m], Under(first, ways)[m]) {
      OnWayInside(items, prefix, first, k, row[m], ways[m]);
    }
  }

  /** Every path is the little-endian spelling of the way to its item. */
  lemma {:induction false} RowOnWays(items: seq<Item>, prefix: Bytes, first: nat, k: nat)
    requires first + |items| <= WORD && forall i :: 0 <= i < |items| ==> ProperItem(items[i])
    ensures AllOnWay(items, prefix, first, k, Row(items, prefix, first, k), Ways(items, first, k))
    decreases items
  {
    if items != [] {
      var rest, more := Row(items[1..], prefix, first + 1, k), Ways(items[1..], first + 1, k);
      RowOnWays(items[1..], prefix, first + 1, k);
      AllOnWayLater(items, prefix, first, k, rest, more);
      var (row, ways) := FirstOnWays(items, prefix, first, k);
      if k == 0 {
        HeadOnWay(items, prefix, first);
      } else if items[0].Nested? {
        assert ProperItem(items[0]) && Proper(items[0].list);
        RowOnWays(items[0].list, prefix + Word(first), 0, k - 1);
        AllOnWayInside(items, prefix, first, k, row, Ways(items[0].list, 0, k - 1));
      }
      AllOnWayConcat(items, prefix, first, k, row, ways, rest, more);
    }
  }

  /** What the first item contributes to a level. */
  function FirstOnWays(items: seq<Item>, prefix: Bytes, first: nat, k: nat): (seq<Place>, seq<Way>)
    requires items != []
  {
    if k == 0 then ([Place(prefix + Word(first), items[0])], [[first]])
    else if items[0].Nested? then
      (Row(items[0].list, prefix + Word(first), 0, k - 1), Under(first, Ways(items[0].list, 0, k - 1)))
    else ([], [])
  }

  // ---------- a buffer byte by byte ----------

  /** The records of a level: for each item the prefix of its list's path and its way, its size,
      its bytes. */
  function Encoded(addr: Addresses, prefix: Bytes, row: seq<Place>, ways: seq<Way>): Bytes
    requires |row| == |ways|
  {
    if row == [] then []
    else
      var raw := Raw(addr, row[0]);
      prefix + Spelled(ways[0]) + LittleEndian(|raw|) + raw + Encoded(addr, prefix, row[1..], ways[1..])
  }

  lemma {:induction false} BufferIsEncoded(addr: Addresses, items: seq<Item>, prefix: Bytes, k: nat,
                                           row: seq<Place>, ways: seq<Way>)
    requires TwoPointers(addr) && AllOnWay(items, prefix, 0, k, row, ways)
    requires forall m :: 0 <= m < |row| ==> ProperItem(row[m].item)
    ensures Buffer(addr, row) == Encoded(addr, prefix, row, ways)
    decreases |row|
  {
    if row != [] {
      assert OnWay(items, prefix, 0, k, row[0], ways[0]) && ProperItem(row[0].item);
      RawFits(addr, row[0]);
      WordIsLittleEndian(|Raw(addr, row[0])|);
      BufferIsEncoded(addr, items, prefix, k, row[1..], ways[1..]);
    }
  }

  /** What a level's buffer holds, without a word about how the numbers are computed. */
  lemma LevelIsEncoded(addr: Addresses, items: seq<Item>, prefix: Bytes, k: nat)
    requires TwoPointers(addr) && Proper(items)
    ensures |Row(items, prefix, 0, k)| == |Ways(items, 0, k)|
    ensures Buffer(addr, Row(items, prefix, 0, k)) == Encoded(addr, prefix, Row(items, prefix, 0, k), Ways(items, 0, k))
  {
    RowOnWays(items, prefix, 0, k);
    RowOfProper(items, prefix, 0, k);
    BufferIsEncoded(addr, items, prefix, k, Row(items, prefix, 0, k), Ways(items, 0, k));
  }

  /** The list of the one-byte item "a". */
  lemma OneByteList(addr: Addresses)
    ensures Buffer(addr, Row([Plain([97])], [], 0, 0)) == [0, 0, 0, 0, 1, 0, 0, 0, 97]
  {
    var items, p := [Plain([97])], Place([] + Word(0), Plain([97]));
    assert items[1..] == [] && Row(items, [], 0, 0) == [p] && [p][1..] == [];
    WordIsLittleEndian(0);
    WordIsLittleEndian(1);
    assert Word(0) == [0, 0, 0, 0] && Word(1) == [1, 0, 0, 0];
  }

  /** The bytes of a descriptor: 16 bytes of magic and padding, the addresses of the first and the
      last node, the size, and what follows; the links of an empty list are all zero. */
  lemma DescriptorLayout(addr: Addresses, p: Place)
    requires TwoPointers(addr) && p.item.Nested? && ProperItem(p.item)
    ensures var (b, rest) := (Raw(addr, p), p.item.rest);
            && |b| == |rest| + 20 && b[..16] == rest[..16] && b[36..] == rest[16..]
            && (p.item.list != [] ==> b[16..32] == addr(p.path) && b[32..36] == LittleEndian(|p.item.list|))
            && (p.item.list == [] ==> forall i :: 16 <= i < 36 ==> b[i] == 0)
  {
    var (b, rest, links) := (Raw(addr, p), p.item.rest, Links(addr, p));
    assert b == rest[..16] + links + rest[16..] && |links| == 20;
    assert b[16..36] == links;
    if p.item.list != [] {
      WordIsLittleEndian(|p.item.list|);
      assert b[16..32] == links[..16] && b[32..36] == links[16..];
    } else {
      assert forall i :: 16 <= i < 36 ==> b[i] == links[i - 16];
    }
  }

  /** What counts as a descriptor: at least its 40 bytes, and the text at its start. */
  lemma DescriptorsBeginWithText(b: Bytes)
    ensures IsList(b) <==> |b| >= 40 && forall i :: 0 <= i < 10 ==> b[i] == "__listdesc"[i] as int
  {
    assert forall i :: 0 <= i < 10 ==> MAGIC[i] == "__listdesc"[i] as int;
    if |b| >= 40 { assert forall i :: 0 <= i < 10 ==> b[..10][i] == b[i]; }
  }

  // ---------- how many levels there are ----------

  ghost predicate HasNested(row: seq<Place>) {
    exists i :: 0 <= i < |row| && row[i].item.Nested?
  }

  /** There is a level below level `k` exactly if an item of level `k` has a list. */
  lemma {:induction false} DepthByRows(items: seq<Item>, prefix: Bytes, first: nat, k: nat)
    ensures Depth(items) > k + 1 <==> HasNested(Row(items, prefix, first, k))
    decreases items
  {
    if items != [] {
      var path, rest := prefix + Word(first), Row(items[1..], prefix, first + 1, k);
      var head := if k == 0 then [Place(path, items[0])]
                  else if items[0].Nested? then Row(items[0].list, path, 0, k - 1) else [];
      DepthByRows(items[1..], prefix, first + 1, k);
      if k > 0 && items[0].Nested? { DepthByRows(items[0].list, path, 0, k - 1); }
      HasNestedConcat(head, rest);
    }
  }

  lemma HasNestedConcat(a: seq<Place>, b: seq<Place>)
    ensures HasNested(a + b) <==> HasNested(a) || HasNested(b)
  {
    forall i | 0 <= i < |a| ensures (a + b)[i] == a[i] {}
    forall i | 0 <= i < |b| ensures (a + b)[|a| + i] == b[i] {}
  }
}
