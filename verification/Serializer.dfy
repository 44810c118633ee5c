/** Writing and reading nested lists (serialization/serialization.c). */
module Serializer {
  import opened Checks
  import opened Options
  import opened Words
  import opened ByteStrings
  import opened Records
  import opened Levels
  import E = Encoding
  import H = HashMap

  // ---------- writing (serialization/serialization.c:9-60) ----------

  /** The buffers that have gone through these histories. */
  function Builds(levels: seq<History>): (rdesc: seq<Bss>)
    ensures |rdesc| == |levels|
  {
    seq(|levels|, k requires 0 <= k < |levels| => Build(levels[k]))
  }

  /** Appends a piece to a buffer with the history `h`, unless it would go past the memory. */
  method AppendPiece(b: Bss, s: Bytes, ghost h: History) returns (longer: Bss, ok: bool)
    requires b == Build(h) && AllFit(h)
    ensures ok <==> AllFit(h + [s])
    ensures ok ==> longer == Build(h + [s])
  {
    assert (h + [s])[..|h|] == h;
    longer, ok := b, Fits(b, |s|);
    if ok {
      longer := Appended(b, s);
    }
  }

  /** The record of an item: the path of the list, the counter, the size and the data. */
  method AppendRecord(b: Bss, prefix: Bytes, counter: Bytes, size: Bytes, data: Bytes, ghost h: History)
    returns (longer: Bss, ok: bool)
    requires b == Build(h) && AllFit(h)
    ensures ok <==> AllFit(h + [prefix, counter, size, data])
    ensures ok ==> longer == Build(h + [prefix, counter, size, data])
  {
    ghost var h1, h2, h3 := h + [prefix], h + [prefix] + [counter], h + [prefix] + [counter] + [size];
    assert h + [prefix, counter, size, data] == h3 + [data];
    FourPieces(h, prefix, counter, size, data);
    longer, ok := AppendPiece(b, prefix, h);
    if ok {
      longer, ok := AppendPiece(longer, counter, h1);
    }
    if ok {
      longer, ok := AppendPiece(longer, size, h2);
    }
    if ok {
      longer, ok := AppendPiece(longer, data, h3);
    }
  }

  lemma FourPieces(h: History, p: Bytes, q: Bytes, r: Bytes, s: Bytes)
    ensures AllFit(h + [p] + [q] + [r] + [s]) ==> AllFit(h + [p] + [q] + [r])
    ensures AllFit(h + [p] + [q] + [r]) ==> AllFit(h + [p] + [q])
    ensures AllFit(h + [p] + [q]) ==> AllFit(h + [p])
  {
    if AllFit(h + [p] + [q] + [r] + [s]) { FitsBefore(h + [p] + [q] + [r], [s]); }
    if AllFit(h + [p] + [q] + [r]) { FitsBefore(h + [p] + [q], [r]); }
    if AllFit(h + [p] + [q]) { FitsBefore(h + [p], [q]); }
  }

  /** Sound: the buffers have gone through these histories, and none was overrun. */
  ghost function Filled(rdesc: seq<Bss>, levels: seq<History>): Health {
    if LevelsFit(levels) && rdesc == Builds(levels) then Sound else Unsound
  }

  lemma FilledAt(rdesc: seq<Bss>, levels: seq<History>, j: nat, b: Bss, h: History)
    requires Filled(rdesc, levels).Sound? && j <= |levels| && b == Build(h) && AllFit(h)
    ensures if j < |levels| then Filled(rdesc[j := b], levels[j := h]).Sound?
            else Filled(rdesc + [b], levels + [h]).Sound?
  {}

  /** Appends the buffers of a nested list, starting one level down; a missing one is added. */
  method AppendLevels(levels: seq<Bss>, irdesc: seq<Bss>, ghost hs: seq<History>, ghost sub: seq<History>)
    returns (rdesc: seq<Bss>, ok: bool)
    requires hs != [] && Filled(levels, hs).Sound? && Filled(irdesc, sub).Sound?
    ensures ok <==> LevelsFit(JoinedLevels(hs, sub))
    ensures ok ==> Filled(rdesc, JoinedLevels(hs, sub)).Sound?
  {
    rdesc, ok := levels, true;
    var retcnt := 1;
    JoinedNothing(hs);
    assert sub[..0] == [];
    while retcnt <= |irdesc|
      invariant 1 <= retcnt <= |irdesc| + 1
      invariant Filled(rdesc, JoinedLevels(hs, sub[..retcnt - 1])).Sound?
    {
      // the walk from the head: past the last level when it took |rdesc| steps
      var rdescit := 0;
      for nextcntr := 0 to retcnt
        invariant rdescit == nextcntr
      {
        rdescit := rdescit + 1;
      }
      rdesc, ok := AppendLevel(rdesc, rdescit, irdesc[retcnt - 1], hs, sub);
      if !ok {
        return;
      }
      retcnt := retcnt + 1;
    }
    assert sub[..|sub|] == sub;
  }

  method AppendLevel(levels: seq<Bss>, rdescit: nat, piece: Bss, ghost hs: seq<History>, ghost sub: seq<History>)
    returns (rdesc: seq<Bss>, ok: bool)
    requires hs != [] && 0 < rdescit <= |sub| && piece == Build(sub[rdescit - 1]) && AllFit(sub[rdescit - 1])
    requires Filled(levels, JoinedLevels(hs, sub[..rdescit - 1])).Sound?
    ensures ok ==> Filled(rdesc, JoinedLevels(hs, sub[..rdescit])).Sound?
    ensures !ok ==> !LevelsFit(JoinedLevels(hs, sub))
  {
    ghost var (now, s) := (JoinedLevels(hs, sub[..rdescit - 1]), sub[rdescit - 1]);
    OneMoreLevel(hs, sub, rdescit - 1);
    if rdescit == |levels| {
      FilledAt(levels, now, rdescit, piece, s);
      return levels + [piece], true;
    }
    BuildsFlat(s);
    var longer;
    longer, ok := AppendPiece(levels[rdescit], piece.str, now[rdescit]);
    rdesc := levels[rdescit := longer];
    if ok {
      FilledAt(levels, now, rdescit, longer, now[rdescit] + [Flat(s)]);
    } else {
      NoRoomForLevel(hs, sub, rdescit - 1);
    }
  }

  lemma OneMoreLevel(hs: seq<History>, sub: seq<History>, j: nat)
    requires hs != [] && j < |sub|
    ensures var now := JoinedLevels(hs, sub[..j]);
            JoinedLevels(hs, sub[..j + 1]) ==
            if |now| == j + 1 then now + [sub[j]] else now[j + 1 := now[j + 1] + [Flat(sub[j])]]
  {}

  lemma NoRoomForLevel(hs: seq<History>, sub: seq<History>, j: nat)
    requires hs != [] && j < |sub| && j + 1 < |hs| && !AllFit(hs[j + 1] + [Flat(sub[j])])
    ensures !LevelsFit(JoinedLevels(hs, sub))
  {
    assert JoinedLevels(hs, sub)[j + 1] == hs[j + 1] + [Flat(sub[j])];
  }

  /** One buffer per level of nesting; buffer `k` holds the records of all items of depth `k`,
      from left to right.  No buffer is overrun exactly when all of them end below 2^31 bytes or
      at most twice as large as they last were below that. */
  method ListSerialize(desc: seq<Item>, prefix: Bytes, addr: Addresses) returns (rdesc: seq<Bss>, ok: bool)
    requires Proper(desc) && TwoPointers(addr)
    ensures ok <==> LevelsHaveRoom(Histories(addr, desc, prefix))
    ensures ok ==> |rdesc| == Depth(desc)
    ensures ok ==> forall k :: 0 <= k < |rdesc| ==> rdesc[k].str == Buffer(addr, Row(desc, prefix, 0, k))
    // byte by byte: paths, counters and sizes low byte first
    ensures ok ==> forall k :: 0 <= k < |rdesc| ==>
                     var (row, ways) := (Row(desc, prefix, 0, k), E.Ways(desc, 0, k));
                     |row| == |ways| && rdesc[k].str == E.Encoded(addr, prefix, row, ways)
  {
    LevelsFitExactly(Histories(addr, desc, prefix));
    rdesc, ok := FillLevels(desc, prefix, addr);
    if ok {
      BuildsAreRows(addr, desc, prefix);
      forall k | 0 <= k < |rdesc| {
        E.LevelIsEncoded(addr, desc, prefix, k);
      }
    }
  }

  method FillLevels(desc: seq<Item>, prefix: Bytes, addr: Addresses) returns (rdesc: seq<Bss>, ok: bool)
    requires Proper(desc) && TwoPointers(addr)
    ensures ok <==> LevelsFit(Histories(addr, desc, prefix))
    ensures ok ==> Filled(rdesc, Histories(addr, desc, prefix)).Sound?
    decreases desc
  {
    rdesc, ok := [Empty()], true;
    var counter := 0;
    var i := 0;
    while i < |desc|
      invariant i <= |desc| && counter == i
      invariant Filled(rdesc, Histories(addr, desc[..i], prefix)).Sound?
    {
      WrapSmall(i + 1);
      rdesc, ok := FillItem(desc, i, prefix, addr, rdesc, counter);
      if !ok {
        return;
      }
      counter := Wrap(counter + 1);
      i := i + 1;
    }
    assert desc[..|desc|] == desc;
  }

  /** The body of the loop over the items. */
  method FillItem(desc: seq<Item>, i: nat, prefix: Bytes, addr: Addresses, levels: seq<Bss>, counter: nat)
    returns (rdesc: seq<Bss>, ok: bool)
    requires Proper(desc) && TwoPointers(addr) && i < |desc| && counter == i
    requires Filled(levels, Histories(addr, desc[..i], prefix)).Sound?
    ensures ok ==> Filled(rdesc, Histories(addr, desc[..i + 1], prefix)).Sound?
    ensures !ok ==> !LevelsFit(Histories(addr, desc, prefix))
    decreases desc, 0
  {
    ghost var was := Histories(addr, desc[..i], prefix);
    ghost var mid := WithRecord(addr, prefix, i, desc[i], was);
    if LevelsFit(Histories(addr, desc, prefix)) { FitsAllTheWay(addr, desc, i, prefix); }
    OneMoreHistory(addr, desc, i, prefix);
    var place := Place(prefix + Word(counter), desc[i]);
    var data := Raw(addr, place);
    RawFits(addr, place);
    var first;
    first, ok := AppendRecord(levels[0], prefix, Word(counter), Word(|data|), data, was[0]);
    rdesc := levels[0 := first];
    if !ok {
      assert !AllFit(mid[0]);
      return;
    }
    FilledAt(levels, was, 0, first, mid[0]);
    assert mid == was[0 := mid[0]];
    if !IsList(data) {
      return;
    }
    var tmpiprefix;
    tmpiprefix, ok := NextPrefix(prefix, Word(counter));
    if !ok {
      return;
    }
    var irdesc;
    irdesc, ok := FillLevels(desc[i].list, tmpiprefix.str, addr);
    if !ok {
      return;
    }
    rdesc, ok := AppendLevels(rdesc, irdesc, mid, Histories(addr, desc[i].list, prefix + Word(i)));
  }

  /** The path that a nested list is written with. */
  method NextPrefix(prefix: Bytes, counter: Bytes) returns (tmpiprefix: Bss, ok: bool)
    ensures ok <==> AllFit([prefix, counter])
    ensures ok ==> tmpiprefix.str == prefix + counter
  {
    assert [] + [prefix] == [prefix] && [prefix] + [counter] == [prefix, counter];
    if AllFit([prefix, counter]) { FitsBefore([prefix], [counter]); }
    FlatOne([], prefix);
    FlatOne([prefix], counter);
    BuildsFlat([prefix, counter]);
    tmpiprefix, ok := AppendPiece(Empty(), prefix, []);
    if ok {
      tmpiprefix, ok := AppendPiece(tmpiprefix, counter, [prefix]);
    }
  }

  lemma BuildsAreRows(addr: Addresses, items: seq<Item>, prefix: Bytes)
    ensures var rdesc := Builds(Histories(addr, items, prefix));
            && |rdesc| == Depth(items)
            && forall k :: 0 <= k < |rdesc| ==> rdesc[k].str == Buffer(addr, Row(items, prefix, 0, k))
  {
    var h := Histories(addr, items, prefix);
    HistoriesAreRows(addr, items, prefix);
    WrittenLevels(addr, items, prefix, Flats(h));
    forall k | 0 <= k < |h| ensures Builds(h)[k].str == Buffer(addr, Row(items, prefix, 0, k)) {
      BuildsFlat(h[k]);
      assert Flats(h)[k] == Flat(h[k]);
    }
  }

  // ---------- reading (serialization/serialization.c:85-173) ----------

  ghost predicate GroupOf(contents: map<Bytes, seq<Item>>, row: seq<Place>, q: Bytes) {
    H.Get(contents, q) == if Family(row, q) == [] then None else Some(Family(row, q))
  }

  /** The map holds the siblings of a row by the path of their parent. */
  ghost predicate Groups(contents: map<Bytes, seq<Item>>, row: seq<Place>) {
    forall q :: GroupOf(contents, row, q)
  }

  /** One more item joins its siblings. */
  lemma GroupGrows(contents: map<Bytes, seq<Item>>, row: seq<Place>, p: Place)
    requires Groups(contents, row) && |p.path| >= 4
    ensures var q := Parent(p.path);
            Groups(contents[q := (if q in contents then contents[q] else []) + [p.item]], row + [p])
  {
    var q := Parent(p.path);
    var next, longer := contents[q := (if q in contents then contents[q] else []) + [p.item]], row + [p];
    forall r ensures GroupOf(next, longer, r) {
      assert GroupOf(contents, row, r);
      FamilyConcat(row, [p], r);
      assert Family([p], r) == if r == q then [p.item] else [];
      assert Family(row, r) + [] == Family(row, r);
    }
  }

  /** The cursor stands before record `i` of a buffer. */
  ghost predicate AtCursor(addr: Addresses, row: seq<Place>, i: nat, lbss: Bytes, pos: nat) {
    i <= |row| && pos <= |lbss| && lbss[pos..] == Buffer(addr, row[i..])
  }

  /** The record under the cursor: its parts, and what follows it. */
  lemma RecordAt(addr: Addresses, row: seq<Place>, i: nat, n: nat, buffer: Bytes, pos: nat)
    requires TwoPointers(addr) && RowFits(row, n) && AtCursor(addr, row, i, buffer, pos) && i < |row|
    ensures var (p, raw) := (row[i], Raw(addr, row[i]));
            && |p.path| == n && pos + n + 4 + |raw| <= |buffer|
            && buffer[pos..pos + n] == p.path && Number(buffer[pos + n..pos + n + 4]) == |raw|
            && buffer[pos + n + 4..pos + n + 4 + |raw|] == raw
            && buffer[pos + n + 4 + |raw|..] == Buffer(addr, row[i + 1..])
  {
    var (p, raw) := (row[i], Raw(addr, row[i]));
    SizeOfRecord(addr, row, i, n);
    FirstOfBuffer(addr, row, i);
    RecordTakenApart(buffer, pos, p.path, Word(|raw|), raw, Buffer(addr, row[i + 1..]));
  }

  lemma SizeOfRecord(addr: Addresses, row: seq<Place>, i: nat, n: nat)
    requires TwoPointers(addr) && RowFits(row, n) && i < |row|
    ensures |row[i].path| == n && Number(Word(|Raw(addr, row[i])|)) == |Raw(addr, row[i])|
  {
    assert ProperItem(row[i].item);
    RawFits(addr, row[i]);
    NumberOfWord(|Raw(addr, row[i])|);
  }

  lemma FirstOfBuffer(addr: Addresses, row: seq<Place>, i: nat)
    requires i < |row|
    ensures var (p, raw) := (row[i], Raw(addr, row[i]));
            Buffer(addr, row[i..]) == p.path + Word(|raw|) + raw + Buffer(addr, row[i + 1..])
  {
    assert row[i..][1..] == row[i + 1..];
  }

  lemma RecordTakenApart(b: Bytes, pos: nat, path: Bytes, size: Bytes, raw: Bytes, rest: Bytes)
    requires pos <= |b| && b[pos..] == path + size + raw + rest
    ensures var (i, j, k) := (pos + |path|, pos + |path| + |size|, pos + |path| + |size| + |raw|);
            k <= |b| && b[pos..i] == path && b[i..j] == size && b[j..k] == raw && b[k..] == rest
  {
    var t := path + size + raw + rest;
    var (i, j, k) := (|path|, |path| + |size|, |path| + |size| + |raw|);
    assert t[..i] == path && t[i..j] == size && t[j..k] == raw && t[k..] == rest;
    assert b[pos..][..i] == b[pos..pos + i] && b[pos..][i..j] == b[pos + i..pos + j];
    assert b[pos..][j..k] == b[pos + j..pos + k] && b[pos..][k..] == b[pos + k..];
  }

  /** Overwrites the links of a descriptor whose list is in the map of the level below. */
  method TakeSisters(tmpdata: Bytes, tmpsearcher: Bytes, previous_data: H.Map?<seq<Item>>) returns (item: Item)
    requires previous_data != null ==>
               && previous_data.Valid() && |tmpsearcher| == previous_data.keysize
               && (tmpsearcher in previous_data.contents ==> |tmpdata| >= LINKS_TO)
    ensures item == if previous_data != null && tmpsearcher in previous_data.contents
                    then Relinked(tmpdata, previous_data.contents[tmpsearcher]) else Read(tmpdata)
  {
    if previous_data != null {
      var tmpmd := previous_data.PtrAt(tmpsearcher);
      if tmpmd.Some? {
        var tmpsister := previous_data.listArray[tmpmd.value.chain][tmpmd.value.index].value;
        return Relinked(tmpdata, tmpsister);
      }
    }
    item := Read(tmpdata);
  }

  /** Adds an item to the siblings that are in the map, or starts a new family. */
  method JoinSiblings(lists: H.Map<seq<Item>>, tmprefix: Bytes, item: Item)
    requires lists.Valid() && |tmprefix| == lists.keysize
    modifies lists`counts, lists`contents, lists.listArray
    ensures lists.Valid()
    ensures lists.contents == var was := old(lists.contents);
                              was[tmprefix := (if tmprefix in was then was[tmprefix] else []) + [item]]
  {
    var tmpaddress := lists.PtrAt(tmprefix);
    if tmpaddress.Some? {
      var tmpsiblings := lists.listArray[tmpaddress.value.chain][tmpaddress.value.index].value;
      lists.Store(tmpaddress.value, tmpsiblings + [item], tmprefix);
    } else {
      assert [] + [item] == [item];
      var status := lists.Insert(tmprefix, [item]);
    }
  }

  /** The map of the level below, or none at the bottom, has every item's list. */
  ghost predicate Sisters(previous_data: H.Map?<seq<Item>>, items: seq<Item>, levels: nat)
    reads previous_data, if previous_data == null then {} else {previous_data.listArray}
  {
    if previous_data == null then levels == Depth(items)
    else
      && previous_data.Valid() && previous_data.keysize == 4 * levels
      && Groups(previous_data.contents, Row(items, [], 0, levels))
  }

  /** An item gets back exactly the list that it had. */
  ghost predicate Restores(previous_data: H.Map?<seq<Item>>, p: Place, addr: Addresses)
    reads previous_data, if previous_data == null then {} else {previous_data.listArray}
  {
    if previous_data != null && p.path in previous_data.contents
    then |Raw(addr, p)| >= LINKS_TO && Relinked(Raw(addr, p), previous_data.contents[p.path]) == p.item
    else Read(Raw(addr, p)) == p.item
  }

  ghost predicate RestoresAll(previous_data: H.Map?<seq<Item>>, row: seq<Place>, addr: Addresses, n: nat)
    reads previous_data, if previous_data == null then {} else {previous_data.listArray}
  {
    && (previous_data != null ==> previous_data.Valid() && previous_data.keysize == n)
    && forall j :: 0 <= j < |row| ==> Restores(previous_data, row[j], addr)
  }

  lemma SistersAreRight(previous_data: H.Map?<seq<Item>>, items: seq<Item>, k: nat, addr: Addresses)
    requires Proper(items) && TwoPointers(addr) && Sisters(previous_data, items, k + 1)
    ensures RestoresAll(previous_data, Row(items, [], 0, k), addr, 4 * (k + 1))
  {
    var row := Row(items, [], 0, k);
    RowOfProper(items, [], 0, k);
    forall j | 0 <= j < |row| ensures Restores(previous_data, row[j], addr) {
      ReadBack(addr, row[j]);
      FamilyOfPlace(items, k, j);
      if previous_data == null {
        BelowDepth(items, [], 0, k + 1);
      } else {
        assert GroupOf(previous_data.contents, Row(items, [], 0, k + 1), row[j].path);
      }
    }
  }

  /** Reads one level after the other, the deepest first. */
  method ListUnserialize(dataset: seq<Bss>, previous_data: H.Map?<seq<Item>>, ghost items: seq<Item>,
                         ghost addr: Addresses)
    returns (itemslist: seq<Item>)
    requires dataset != [] && Proper(items) && TwoPointers(addr) && Sisters(previous_data, items, |dataset|)
    requires PathsFit(items)
    requires forall k :: 0 <= k < |dataset| ==> dataset[k].str == Buffer(addr, Row(items, [], 0, k))
    ensures itemslist == items
    decreases |dataset|
  {
    var prefix_num := |dataset| - 1;
    H.UhashInRange();
    var lists := new H.Map<seq<Item>>(H.BASE, H.Uhash, 4 * prefix_num);
    SistersAreRight(previous_data, items, prefix_num, addr);
    RowOfProper(items, [], 0, prefix_num);
    EmptyGroups();
    itemslist := ReadLevel(dataset[prefix_num].str, prefix_num, lists, previous_data, Row(items, [], 0, prefix_num),
                           addr);
    if prefix_num == 0 {
      TopRow(items);
      lists.Clear();
      return;
    }
    itemslist := ListUnserialize(dataset[..prefix_num], lists, items, addr);
    lists.Clear();
  }

  /** The top row is the list itself. */
  lemma TopRow(items: seq<Item>)
    ensures Family(Row(items, [], 0, 0), []) == items
  {
    FamilyOfChildren(items, [], 0, []);
  }

  /** The record under the cursor as the reader takes it: `m` bytes of prefix, counter, size, data. */
  lemma RecordParts(addr: Addresses, row: seq<Place>, i: nat, m: nat, lbss: Bytes, pos: nat)
    requires TwoPointers(addr) && RowFits(row, m + 4) && AtCursor(addr, row, i, lbss, pos) && i < |row|
    ensures var (c, z, d, raw) := (pos + m, pos + m + 4, pos + m + 8, Raw(addr, row[i]));
            && d + |raw| <= |lbss| && lbss[pos..c] + lbss[c..z] == row[i].path
            && Number(lbss[z..d]) == |raw| && lbss[d..d + |raw|] == raw && AtCursor(addr, row, i + 1, lbss, d + |raw|)
  {
    RecordAt(addr, row, i, m + 4, lbss, pos);
    NextTo(lbss, pos, pos + m, pos + m + 4);
  }

  lemma NextTo(b: Bytes, i: nat, j: nat, k: nat)
    requires i <= j <= k <= |b|
    ensures b[i..j] + b[j..k] == b[i..k]
  {}

  /** The steps of the cursor through a record with `size` bytes of data. */
  method TakeApart(lbss: Bytes, pos: nat, prefix_num: nat, ghost size: nat)
    returns (tmprefix: Bytes, tmpcnt: Bytes, tmpdata: Bytes, stringiter: nat)
    requires var (z, d) := (pos + 4 * prefix_num + 4, pos + 4 * prefix_num + 8);
             d + size <= |lbss| && Number(lbss[z..d]) == size
    ensures var (c, z, d) := (pos + 4 * prefix_num, pos + 4 * prefix_num + 4, pos + 4 * prefix_num + 8);
            && tmprefix == lbss[pos..c] && tmpcnt == lbss[c..z] && tmpdata == lbss[d..d + size]
            && stringiter == d + size
  {
    stringiter := pos;
    tmprefix := lbss[stringiter..stringiter + prefix_num * 4];
    stringiter := stringiter + prefix_num * 4;
    tmpcnt := lbss[stringiter..stringiter + 4];
    stringiter := stringiter + 4;
    var tmpsize := Number(lbss[stringiter..stringiter + 4]);
    stringiter := stringiter + 4;
    tmpdata := lbss[stringiter..stringiter + tmpsize];
    stringiter := stringiter + tmpsize;
  }

  /** Takes the record under the cursor apart and moves on to the next one. */
  method TakeRecord(lbss: Bytes, pos: nat, prefix_num: nat, ghost row: seq<Place>, ghost i: nat, ghost addr: Addresses)
    returns (tmprefix: Bytes, tmpcnt: Bytes, tmpdata: Bytes, stringiter: nat)
    requires TwoPointers(addr) && RowFits(row, 4 * (prefix_num + 1)) && AtCursor(addr, row, i, lbss, pos) && i < |row|
    ensures tmprefix + tmpcnt == row[i].path && |tmpcnt| == 4 && |tmprefix| == 4 * prefix_num
    ensures tmpdata == Raw(addr, row[i]) && AtCursor(addr, row, i + 1, lbss, stringiter)
  {
    RecordParts(addr, row, i, 4 * prefix_num, lbss, pos);
    tmprefix, tmpcnt, tmpdata, stringiter := TakeApart(lbss, pos, prefix_num, |Raw(addr, row[i])|);
  }

  /** What a level has given after its first records: families by prefix, or the list itself. */
  ghost predicate Collected(lists: H.Map<seq<Item>>, itemslist: seq<Item>, prefix_num: nat, row: seq<Place>)
    reads lists, lists.listArray
  {
    && lists.Valid() && lists.keysize == 4 * prefix_num
    && if prefix_num > 0 then Groups(lists.contents, row) else itemslist == Family(row, [])
  }

  /** Puts an item where it belongs. */
  method PutItem(lists: H.Map<seq<Item>>, itemslist: seq<Item>, tmprefix: Bytes, item: Item, prefix_num: nat,
                 ghost row: seq<Place>, ghost path: Bytes)
    returns (longer: seq<Item>)
    requires Collected(lists, itemslist, prefix_num, row) && |path| == 4 * (prefix_num + 1) && tmprefix == Parent(path)
    modifies lists`counts, lists`contents, lists.listArray
    ensures Collected(lists, longer, prefix_num, row + [Place(path, item)])
  {
    longer := itemslist;
    if prefix_num != 0 {
      GroupGrows(lists.contents, row, Place(path, item));
      JoinSiblings(lists, tmprefix, item);
    } else {
      FamilyConcat(row, [Place(path, item)], []);
      longer := itemslist + [item];
    }
  }

  /** Builds the item of one record. */
  method Rebuild(tmprefix: Bytes, tmpcnt: Bytes, tmpdata: Bytes, lists: H.Map<seq<Item>>, itemslist: seq<Item>,
                 previous_data: H.Map?<seq<Item>>, prefix_num: nat,
                 ghost seen: seq<Place>, ghost row: seq<Place>, ghost i: nat, ghost addr: Addresses)
    returns (longer: seq<Item>)
    requires i < |row| && tmprefix + tmpcnt == row[i].path && tmpdata == Raw(addr, row[i])
    requires |tmprefix| == 4 * prefix_num < HALF && |tmpcnt| == 4
    requires RestoresAll(previous_data, row, addr, 4 * (prefix_num + 1))
    requires Collected(lists, itemslist, prefix_num, seen)
    requires lists != previous_data && (previous_data != null ==> lists.listArray != previous_data.listArray)
    modifies lists`counts, lists`contents, lists.listArray
    ensures Collected(lists, longer, prefix_num, seen + [row[i]])
    ensures RestoresAll(previous_data, row, addr, 4 * (prefix_num + 1))
  {
    assert Restores(previous_data, row[i], addr);
    TwoPiecesFit(tmprefix, tmpcnt);
    var tmpsearcher, ok := NextPrefix(tmprefix, tmpcnt);
    var item := TakeSisters(tmpdata, tmpsearcher.str, previous_data);
    assert Place(row[i].path, item) == row[i];
    longer := PutItem(lists, itemslist, tmprefix, item, prefix_num, seen, row[i].path);
  }

  lemma EmptyGroups()
    ensures Groups(map[], [])
  {}

  /** Sound: the first `i` records of the buffer have been read, and the cursor is behind them. */
  ghost function Progress(lists: H.Map<seq<Item>>, itemslist: seq<Item>, previous_data: H.Map?<seq<Item>>,
                          prefix_num: nat, lbss: Bytes, pos: nat, row: seq<Place>, i: nat, addr: Addresses): Health
    reads lists, lists.listArray
    reads previous_data, if previous_data == null then {} else {previous_data.listArray}
  {
    if AtCursor(addr, row, i, lbss, pos) && Collected(lists, itemslist, prefix_num, row[..i])
       && RestoresAll(previous_data, row, addr, 4 * (prefix_num + 1))
    then Sound else Unsound
  }

  /** One turn of the loop: takes a record and puts its item where it belongs. */
  method ReadRecord(lbss: Bytes, pos: nat, prefix_num: nat, lists: H.Map<seq<Item>>, itemslist: seq<Item>,
                    previous_data: H.Map?<seq<Item>>, ghost row: seq<Place>, ghost i: nat, ghost addr: Addresses)
    returns (longer: seq<Item>, stringiter: nat)
    requires TwoPointers(addr) && RowFits(row, 4 * (prefix_num + 1)) && i < |row| && 4 * prefix_num < HALF
    requires Progress(lists, itemslist, previous_data, prefix_num, lbss, pos, row, i, addr).Sound?
    requires lists != previous_data && (previous_data != null ==> lists.listArray != previous_data.listArray)
    modifies lists`counts, lists`contents, lists.listArray
    ensures Progress(lists, longer, previous_data, prefix_num, lbss, stringiter, row, i + 1, addr).Sound?
  {
    assert row[..i + 1] == row[..i] + [row[i]];
    var tmprefix, tmpcnt, tmpdata;
    tmprefix, tmpcnt, tmpdata, stringiter := TakeRecord(lbss, pos, prefix_num, row, i, addr);
    longer := Rebuild(tmprefix, tmpcnt, tmpdata, lists, itemslist, previous_data, prefix_num, row[..i], row, i, addr);
  }

  /** The cursor's way through one buffer, which it leaves exactly at the end. */
  method ReadLevel(lbss: Bytes, prefix_num: nat, lists: H.Map<seq<Item>>, previous_data: H.Map?<seq<Item>>,
                   ghost row: seq<Place>, ghost addr: Addresses) returns (itemslist: seq<Item>)
    requires TwoPointers(addr) && RowFits(row, 4 * (prefix_num + 1)) && lbss == Buffer(addr, row)
    requires row != [] ==> 4 * prefix_num < HALF
    requires RestoresAll(previous_data, row, addr, 4 * (prefix_num + 1))
    requires Collected(lists, [], prefix_num, [])
    requires lists != previous_data && (previous_data != null ==> lists.listArray != previous_data.listArray)
    modifies lists`counts, lists`contents, lists.listArray
    ensures Collected(lists, itemslist, prefix_num, row)
  {
    ghost var i := 0;
    itemslist := [];
    var stringiter := 0;
    assert row[0..] == row && lbss[0..] == lbss && row[..0] == [];
    while stringiter != |lbss|
      invariant Progress(lists, itemslist, previous_data, prefix_num, lbss, stringiter, row, i, addr).Sound?
      decreases |row| - i
    {
      NotAtEnd(addr, row, i, 4 * (prefix_num + 1), lbss, stringiter);
      itemslist, stringiter := ReadRecord(lbss, stringiter, prefix_num, lists, itemslist, previous_data, row, i, addr);
      i := i + 1;
    }
    NotAtEnd(addr, row, i, 4 * (prefix_num + 1), lbss, stringiter);
  }

  /** The cursor is at the end of the buffer exactly when all records have been read. */
  lemma NotAtEnd(addr: Addresses, row: seq<Place>, i: nat, n: nat, lbss: Bytes, pos: nat)
    requires TwoPointers(addr) && RowFits(row, n) && AtCursor(addr, row, i, lbss, pos)
    ensures pos == |lbss| <==> i == |row|
    ensures row[..|row|] == row
  {
    if i < |row| { FirstOfBuffer(addr, row, i); }
  }

  /** Writing a list and reading it back: the same list, whatever its depth and shape, with
      empty lists at any level, exactly as long as no level overruns its buffer. */
  method RoundTrip(desc: seq<Item>, addr: Addresses) returns (copy: seq<Item>, ok: bool)
    requires Proper(desc) && TwoPointers(addr)
    ensures ok <==> LevelsHaveRoom(Histories(addr, desc, []))
    ensures ok ==> copy == desc
  {
    var rdesc;
    copy := [];
    rdesc, ok := ListSerialize(desc, [], addr);
    if ok {
      ReadableWhenWritten(addr, desc);
      copy := ListUnserialize(rdesc, null, desc, addr);
    }
  }
}
