/** The level buffers that the writer of serialization/serialization.c fills. */
module Levels {
  import opened Checks
  import opened Words
  import opened Ordering
  import opened ByteStrings
  import opened Records

  // ---------- the pieces that go into each buffer ----------

  /** An item's record goes into the first buffer in four pieces. */
  function RecordPieces(addr: Addresses, prefix: Bytes, n: nat, item: Item): History {
    var raw := Raw(addr, Place(prefix + Word(n), item));
    [prefix, Word(n), Word(|raw|), raw]
  }

  /** Buffer `k` after the buffers of a nested list have been appended one level down, each in
      one piece; a missing one is taken over as it is. */
  function JoinedLevel(levels: seq<History>, sub: seq<History>, k: nat): History {
    if k == 0 || k > |sub| then if k < |levels| then levels[k] else []
    else if k < |levels| then levels[k] + [Flat(sub[k - 1])]
    else sub[k - 1]
  }

  function JoinedLevels(levels: seq<History>, sub: seq<History>): seq<History> {
    seq(if |levels| > |sub| + 1 then |levels| else |sub| + 1, k requires 0 <= k => JoinedLevel(levels, sub, k))
  }

  /** One history per level of nesting. */
  function Histories(addr: Addresses, items: seq<Item>, prefix: Bytes): (h: seq<History>)
    ensures h != []
    decreases items
  {
    if items == [] then [[]] else
      var n := |items| - 1;
      JoinedLevels(WithRecord(addr, prefix, n, items[n], Histories(addr, items[..n], prefix)),
                   if items[n].Nested? then Histories(addr, items[n].list, prefix + Word(n)) else [])
  }

  function WithRecord(addr: Addresses, prefix: Bytes, n: nat, item: Item, levels: seq<History>): seq<History>
    requires levels != []
  {
    levels[0 := levels[0] + RecordPieces(addr, prefix, n, item)]
  }

  /** No append to any of the buffers goes past its memory. */
  ghost predicate LevelsFit(levels: seq<History>) {
    forall k :: 0 <= k < |levels| ==> AllFit(levels[k])
  }

  /** Every buffer ends below 2^31 bytes, or at most twice as large as it last was below that. */
  ghost predicate LevelsHaveRoom(levels: seq<History>) {
    forall k :: 0 <= k < |levels| ==> HasRoom(levels[k])
  }

  /** Sound: none of the buffers that a list is written to is overrun. */
  ghost function Writing(addr: Addresses, items: seq<Item>, prefix: Bytes): Health {
    if LevelsFit(Histories(addr, items, prefix)) then Sound else Unsound
  }

  lemma LevelsFitExactly(levels: seq<History>)
    ensures LevelsFit(levels) <==> LevelsHaveRoom(levels)
  {
    forall k | 0 <= k < |levels| ensures AllFit(levels[k]) <==> HasRoom(levels[k]) {
      FitsExactly(levels[k]);
    }
  }

  /** If the buffers with a nested list's appended fit, so do those before ... */
  lemma FitsBeforeJoin(levels: seq<History>, sub: seq<History>)
    requires LevelsFit(JoinedLevels(levels, sub))
    ensures LevelsFit(levels)
  {
    forall k | 0 <= k < |levels| ensures AllFit(levels[k]) {
      assert AllFit(JoinedLevels(levels, sub)[k]);
      if 0 < k <= |sub| { FitsBefore(levels[k], [Flat(sub[k - 1])]); }
    }
  }

  /** ... and those of the nested list, because none of them can have 2^31 bytes. */
  lemma FitsNested(levels: seq<History>, sub: seq<History>)
    requires LevelsFit(JoinedLevels(levels, sub)) && levels != []
    ensures LevelsFit(sub)
  {
    forall k | 0 <= k < |sub| ensures AllFit(sub[k]) {
      var h := JoinedLevels(levels, sub)[k + 1];
      assert AllFit(h);
      if k + 1 < |levels| {
        assert h == levels[k + 1] + [Flat(sub[k])] + [];
        PieceIsSmall(levels[k + 1], Flat(sub[k]), []);
        FitsExactly(sub[k]);
      }
    }
  }

  /** The same for a record, whose first piece is the path of the list. */
  lemma FitsBeforeRecord(addr: Addresses, prefix: Bytes, n: nat, item: Item, levels: seq<History>)
    requires levels != [] && LevelsFit(WithRecord(addr, prefix, n, item, levels))
    ensures LevelsFit(levels) && |prefix| < HALF
  {
    var mid, rest := WithRecord(addr, prefix, n, item, levels), RecordPieces(addr, prefix, n, item);
    forall k | 0 <= k < |levels| ensures AllFit(levels[k]) {
      assert AllFit(mid[k]);
      if k == 0 { FitsBefore(levels[0], rest); }
    }
    assert AllFit(mid[0]) && mid[0] == levels[0] + [prefix] + rest[1..];
    PieceIsSmall(levels[0], prefix, rest[1..]);
  }

  lemma JoinedNothing(levels: seq<History>)
    requires levels != []
    ensures JoinedLevels(levels, []) == levels
  {}

  lemma {:induction false} FitsFirst(addr: Addresses, items: seq<Item>, i: nat, prefix: Bytes)
    requires i <= |items| && LevelsFit(Histories(addr, items, prefix))
    ensures LevelsFit(Histories(addr, items[..i], prefix))
    decreases |items|
  {
    if i == |items| {
      assert items[..i] == items;
    } else {
      var n := |items| - 1;
      var was := Histories(addr, items[..n], prefix);
      FitsBeforeJoin(WithRecord(addr, prefix, n, items[n], was),
                     if items[n].Nested? then Histories(addr, items[n].list, prefix + Word(n)) else []);
      FitsBeforeRecord(addr, prefix, n, items[n], was);
      FitsFirst(addr, items[..n], i, prefix);
      assert items[..n][..i] == items[..i];
    }
  }

  /** The histories after one more item. */
  lemma OneMoreHistory(addr: Addresses, items: seq<Item>, i: nat, prefix: Bytes)
    requires i < |items|
    ensures var mid := WithRecord(addr, prefix, i, items[i], Histories(addr, items[..i], prefix));
            Histories(addr, items[..i + 1], prefix) ==
            if items[i].Nested? then JoinedLevels(mid, Histories(addr, items[i].list, prefix + Word(i))) else mid
  {
    assert items[..i + 1][..i] == items[..i];
    JoinedNothing(WithRecord(addr, prefix, i, items[i], Histories(addr, items[..i], prefix)));
  }

  /** If all buffers fit in the end, they do at every step of the way. */
  lemma FitsAllTheWay(addr: Addresses, items: seq<Item>, i: nat, prefix: Bytes)
    requires i < |items| && LevelsFit(Histories(addr, items, prefix))
    ensures LevelsFit(WithRecord(addr, prefix, i, items[i], Histories(addr, items[..i], prefix)))
    ensures |prefix| < HALF && AllFit([prefix, Word(i)])
    ensures items[i].Nested? ==> LevelsFit(Histories(addr, items[i].list, prefix + Word(i)))
    ensures LevelsFit(Histories(addr, items[..i + 1], prefix))
  {
    var was := Histories(addr, items[..i], prefix);
    FitsFirst(addr, items, i + 1, prefix);
    OneMoreHistory(addr, items, i, prefix);
    if items[i].Nested? {
      var mid, sub := WithRecord(addr, prefix, i, items[i], was), Histories(addr, items[i].list, prefix + Word(i));
      FitsBeforeJoin(mid, sub);
      FitsNested(mid, sub);
    }
    FitsBeforeRecord(addr, prefix, i, items[i], was);
    TwoPiecesFit(prefix, Word(i));
  }

  lemma LastOfRow(items: seq<Item>, n: nat, prefix: Bytes, k: nat)
    requires n + 1 == |items|
    ensures Row(items, prefix, 0, k) ==
            Row(items[..n], prefix, 0, k)
            + if k == 0 then [Place(prefix + Word(n), items[n])]
              else if items[n].Nested? then Row(items[n].list, prefix + Word(n), 0, k - 1) else []
  {
    var last := [items[n]];
    assert items == items[..n] + last && last[1..] == [];
    RowConcat(items[..n], last, prefix, 0, k);
    assert forall r: seq<Place> :: r + [] == r;
  }

  /** An item of the list that leads to depth `k`. */
  lemma {:induction false} WayDown(items: seq<Item>, prefix: Bytes, first: nat, k: nat) returns (i: nat)
    requires Row(items, prefix, first, k) != []
    ensures i < |items|
    ensures k > 0 ==> items[i].Nested? && Row(items[i].list, prefix + Word(first + i), 0, k - 1) != []
  {
    if k == 0 || (items[0].Nested? && Row(items[0].list, prefix + Word(first), 0, k - 1) != []) {
      i := 0;
    } else {
      var j := WayDown(items[1..], prefix, first + 1, k);
      assert first + 1 + j == first + (j + 1) && items[1..][j] == items[j + 1];
      i := j + 1;
    }
  }

  lemma ListFits(addr: Addresses, items: seq<Item>, i: nat, prefix: Bytes)
    requires i < |items| && Writing(addr, items, prefix).Sound?
    ensures |prefix| < HALF
    ensures items[i].Nested? ==> Writing(addr, items[i].list, prefix + Word(i)).Sound?
  {
    FitsAllTheWay(addr, items, i, prefix);
  }

  /** Where the buffers fit, all paths of a level are shorter than 2^31 bytes. */
  lemma {:induction false} PathsAreSmall(addr: Addresses, items: seq<Item>, prefix: Bytes, k: nat)
    requires Writing(addr, items, prefix).Sound? && Row(items, prefix, 0, k) != []
    ensures |prefix| + 4 * k < HALF
    decreases items
  {
    var i := WayDown(items, prefix, 0, k);
    ListFits(addr, items, i, prefix);
    if k > 0 { PathsAreSmall(addr, items[i].list, prefix + Word(i), k - 1); }
  }

  /** No item is nested so deep that the reader cannot put its path together. */
  ghost predicate PathsFit(items: seq<Item>) {
    forall k: nat :: Row(items, [], 0, k) != [] ==> 4 * k < HALF
  }

  lemma ReadableWhenWritten(addr: Addresses, items: seq<Item>)
    requires LevelsHaveRoom(Histories(addr, items, []))
    ensures PathsFit(items)
  {
    LevelsFitExactly(Histories(addr, items, []));
    forall k: nat | Row(items, [], 0, k) != [] ensures 4 * k < HALF {
      PathsAreSmall(addr, items, [], k);
    }
  }

  // ---------- what is in the buffers ----------

  /** Level `k` of the buffers; nothing past the last one. */
  function Level(rdesc: seq<Bytes>, k: nat): Bytes {
    if k < |rdesc| then rdesc[k] else []
  }

  /** The buffers of the first items of a list. */
  ghost predicate Written(addr: Addresses, items: seq<Item>, prefix: Bytes, rdesc: seq<Bytes>) {
    |rdesc| == Depth(items) && forall k: nat :: LevelWritten(addr, items, prefix, rdesc, k)
  }

  ghost predicate LevelWritten(addr: Addresses, items: seq<Item>, prefix: Bytes, rdesc: seq<Bytes>, k: nat) {
    Level(rdesc, k) == Buffer(addr, Row(items, prefix, 0, k))
  }

  /** Level `k` after an item has added its record and the levels of its list. */
  ghost predicate LevelJoined(was: seq<Bytes>, record: Bytes, irdesc: seq<Bytes>, rdesc: seq<Bytes>, k: nat) {
    Level(rdesc, k) == Level(was, k) + if k == 0 then record else Level(irdesc, k - 1)
  }

  ghost predicate Joined(was: seq<Bytes>, record: Bytes, irdesc: seq<Bytes>, rdesc: seq<Bytes>) {
    && |rdesc| == (if |was| > |irdesc| + 1 then |was| else |irdesc| + 1)
    && forall k: nat :: LevelJoined(was, record, irdesc, rdesc, k)
  }

  /** The buffers of an item's own list; none for an item without one. */
  ghost predicate ListWritten(addr: Addresses, item: Item, path: Bytes, irdesc: seq<Bytes>) {
    if item.Nested? then Written(addr, item.list, path, irdesc) else irdesc == []
  }

  /** What one item adds to the levels. */
  lemma OneMoreItem(addr: Addresses, desc: seq<Item>, i: nat, prefix: Bytes, was: seq<Bytes>, rdesc: seq<Bytes>,
                    irdesc: seq<Bytes>)
    requires i < |desc| && Written(addr, desc[..i], prefix, was)
    requires Joined(was, Record(addr, Place(prefix + Word(i), desc[i])), irdesc, rdesc)
    requires ListWritten(addr, desc[i], prefix + Word(i), irdesc)
    ensures Written(addr, desc[..i + 1], prefix, rdesc)
  {
    var next := desc[..i + 1];
    assert next == desc[..i] + [desc[i]];
    DepthConcat(desc[..i], [desc[i]]);
    forall k: nat ensures LevelWritten(addr, next, prefix, rdesc, k) {
      assert LevelWritten(addr, desc[..i], prefix, was, k);
      assert LevelJoined(was, Record(addr, Place(prefix + Word(i), desc[i])), irdesc, rdesc, k);
      ItemLevel(addr, desc[..i], desc[i], prefix, k);
      if k > 0 && desc[i].Nested? { assert LevelWritten(addr, desc[i].list, prefix + Word(i), irdesc, k - 1); }
    }
  }

  lemma ItemLevel(addr: Addresses, items: seq<Item>, item: Item, prefix: Bytes, k: nat)
    ensures Buffer(addr, Row(items + [item], prefix, 0, k)) ==
            Buffer(addr, Row(items, prefix, 0, k))
            + if k == 0 then Record(addr, Place(prefix + Word(|items|), item))
              else if item.Nested? then Buffer(addr, Row(item.list, prefix + Word(|items|), 0, k - 1))
              else []
  {
    assert (items + [item])[..|items|] == items;
    LastOfRow(items + [item], |items|, prefix, k);
    var p := Place(prefix + Word(|items|), item);
    var last := if k == 0 then [p] else if item.Nested? then Row(item.list, p.path, 0, k - 1) else [];
    BufferConcat(addr, Row(items, prefix, 0, k), last);
    assert [p][1..] == [] && Record(addr, p) + [] == Record(addr, p);
  }

  function Flats(levels: seq<History>): (b: seq<Bytes>)
    ensures |b| == |levels|
  {
    seq(|levels|, k requires 0 <= k < |levels| => Flat(levels[k]))
  }

  lemma FlatOfRecord(addr: Addresses, prefix: Bytes, n: nat, item: Item, h: History)
    ensures Flat(h + RecordPieces(addr, prefix, n, item)) == Flat(h) + Record(addr, Place(prefix + Word(n), item))
  {
    var r := RecordPieces(addr, prefix, n, item);
    assert h + r == h + [r[0]] + [r[1]] + [r[2]] + [r[3]];
    FlatOne(h, r[0]);
    FlatOne(h + [r[0]], r[1]);
    FlatOne(h + [r[0]] + [r[1]], r[2]);
    FlatOne(h + [r[0]] + [r[1]] + [r[2]], r[3]);
  }

  lemma FlatOfLevel(addr: Addresses, prefix: Bytes, n: nat, item: Item, was: seq<History>, sub: seq<History>, k: nat)
    requires was != []
    ensures var all := JoinedLevels(WithRecord(addr, prefix, n, item, was), sub);
            LevelJoined(Flats(was), Record(addr, Place(prefix + Word(n), item)), Flats(sub), Flats(all), k)
  {
    if k == 0 {
      FlatOfRecord(addr, prefix, n, item, was[0]);
    } else if k <= |sub| && k < |was| {
      FlatOne(was[k], Flat(sub[k - 1]));
    }
  }

  lemma FlatOfJoined(addr: Addresses, prefix: Bytes, n: nat, item: Item, was: seq<History>, sub: seq<History>)
    requires was != []
    ensures Joined(Flats(was), Record(addr, Place(prefix + Word(n), item)), Flats(sub),
                   Flats(JoinedLevels(WithRecord(addr, prefix, n, item, was), sub)))
  {
    forall k: nat {
      FlatOfLevel(addr, prefix, n, item, was, sub, k);
    }
  }

  /** Buffer `k` ends up with the records of all items of depth `k`, from left to right. */
  lemma {:induction false} HistoriesAreRows(addr: Addresses, items: seq<Item>, prefix: Bytes)
    ensures Written(addr, items, prefix, Flats(Histories(addr, items, prefix)))
    decreases items
  {
    if items != [] {
      var n := |items| - 1;
      var was := Histories(addr, items[..n], prefix);
      var sub := if items[n].Nested? then Histories(addr, items[n].list, prefix + Word(n)) else [];
      HistoriesAreRows(addr, items[..n], prefix);
      FlatOfJoined(addr, prefix, n, items[n], was, sub);
      if items[n].Nested? { HistoriesAreRows(addr, items[n].list, prefix + Word(n)); }
      assert items[..n + 1] == items;
      OneMoreItem(addr, items, n, prefix, Flats(was), Flats(Histories(addr, items, prefix)), Flats(sub));
    }
  }

  lemma WrittenLevels(addr: Addresses, items: seq<Item>, prefix: Bytes, rdesc: seq<Bytes>)
    requires Written(addr, items, prefix, rdesc)
    ensures forall k :: 0 <= k < |rdesc| ==> rdesc[k] == Buffer(addr, Row(items, prefix, 0, k))
  {
    forall k | 0 <= k < |rdesc| ensures rdesc[k] == Buffer(addr, Row(items, prefix, 0, k)) {
      assert LevelWritten(addr, items, prefix, rdesc, k);
    }
  }

  /** Buffers below 2^31 bytes have room, whatever order they were filled in. */
  lemma SmallLevelsHaveRoom(addr: Addresses, items: seq<Item>, prefix: Bytes)
    requires forall k :: 0 <= k < Depth(items) ==> |Buffer(addr, Row(items, prefix, 0, k))| < HALF
    ensures LevelsHaveRoom(Histories(addr, items, prefix))
  {
    var h := Histories(addr, items, prefix);
    HistoriesAreRows(addr, items, prefix);
    WrittenLevels(addr, items, prefix, Flats(h));
    forall k | 0 <= k < |h| ensures HasRoom(h[k]) {
      assert Flats(h)[k] == Flat(h[k]);
    }
  }

  /** A single item of 2^31 bytes has not. */
  lemma BigItemHasNoRoom(addr: Addresses, items: seq<Item>, i: nat, prefix: Bytes)
    requires i < |items| && |Raw(addr, Place(prefix + Word(i), items[i]))| >= HALF
    ensures !LevelsHaveRoom(Histories(addr, items, prefix))
  {
    var h := Histories(addr, items, prefix);
    LevelsFitExactly(h);
    if LevelsFit(h) {
      FitsAllTheWay(addr, items, i, prefix);
      var was, r := Histories(addr, items[..i], prefix), RecordPieces(addr, prefix, i, items[i]);
      var mid := WithRecord(addr, prefix, i, items[i], was);
      assert AllFit(mid[0]) && mid[0] == was[0] + r[..3] + [r[3]] + [];
      PieceIsSmall(was[0] + r[..3], r[3], []);
    }
  }
}
