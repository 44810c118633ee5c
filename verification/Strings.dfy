/** The string comparator of utils/utils.c, a comparator that obeys the three-way laws. */
module Strings {
  import opened Ordering

  /** The bytes before the terminating zero. */
  function Text(s: seq<byte>): (t: seq<byte>)
    ensures |t| <= |s| && t == s[..|t|] && (|t| < |s| ==> s[|t|] == 0)
    ensures forall i :: 0 <= i < |t| ==> s[i] != 0
  {
    if s == [] || s[0] == 0 then [] else [s[0]] + Text(s[1..])
  }

  /** A byte as a signed char. */
  function Char(b: byte): int {
    if b < 128 then b as int else b as int - 256
  }

  function Compare(a: seq<byte>, b: seq<byte>): int {
    if a == [] || b == [] then |a| - |b|
    else if a[0] != b[0] then Char(a[0]) - Char(b[0])
    else Compare(a[1..], b[1..])
  }

  const StringCompare: Comparator := (a: Blob, b: Blob) => Compare(Text(a.bytes), Text(b.bytes))

  /** A signed char has the bits of the byte and lies between -128 and 127. */
  lemma CharIsSigned(b: byte)
    ensures -128 <= Char(b) <= 127 && (Char(b) - b) % 256 == 0
  {}

  /** Both texts agree in front of position `i`, where `a` has ended and `b` has not or both go on
      and the signed character of `a` is below that of `b`. */
  ghost predicate LessAt(a: seq<byte>, b: seq<byte>, i: nat) {
    && i <= |a| && i < |b| && a[..i] == b[..i]
    && (i == |a| || Char(a[i]) < Char(b[i]))
  }

  ghost predicate Precedes(a: seq<byte>, b: seq<byte>) {
    exists i: nat :: LessAt(a, b, i)
  }

  /** The comparison is the dictionary order of the signed characters. */
  lemma {:induction false} CompareIsDictionaryOrder(a: seq<byte>, b: seq<byte>)
    ensures Compare(a, b) < 0 <==> Precedes(a, b)
  {
    if a == [] || b == [] {
      if a == [] && b != [] { assert LessAt(a, b, 0); }
    } else if a[0] != b[0] {
      CharTellsApart(a[0], b[0]);
      if Char(a[0]) < Char(b[0]) { assert LessAt(a, b, 0); }
      forall i: nat | 0 < i <= |a| && i <= |b| ensures a[..i] != b[..i] {
        assert a[..i][0] == a[0] && b[..i][0] == b[0];
      }
    } else {
      CompareIsDictionaryOrder(a[1..], b[1..]);
      forall i: nat ensures LessAt(a[1..], b[1..], i) <==> LessAt(a, b, i + 1) { LessLater(a, b, i); }
      if i: nat :| LessAt(a[1..], b[1..], i) { assert LessAt(a, b, i + 1); }
      if i: nat :| LessAt(a, b, i) { assert i > 0 && LessAt(a[1..], b[1..], i - 1); }
    }
  }

  lemma CharTellsApart(x: byte, y: byte)
    ensures Char(x) == Char(y) <==> x == y
  {}

  lemma LessLater(a: seq<byte>, b: seq<byte>, i: nat)
    requires a != [] && b != [] && a[0] == b[0]
    ensures LessAt(a[1..], b[1..], i) <==> LessAt(a, b, i + 1)
  {
    if i < |a| && i < |b| {
      var (x, y) := (a[..i + 1], b[..i + 1]);
      assert x[1..] == a[1..][..i] && y[1..] == b[1..][..i];
      assert x == [a[0]] + x[1..] && y == [b[0]] + y[1..];
      assert i + 1 < |a| ==> a[1..][i] == a[i + 1];
      assert i + 1 < |b| ==> b[1..][i] == b[i + 1];
    }
  }

  lemma {:induction false} CompareMirrors(a: seq<byte>, b: seq<byte>)
    ensures Compare(b, a) == -Compare(a, b)
  {
    if a != [] && b != [] { CompareMirrors(a[1..], b[1..]); }
  }

  lemma {:induction false} CompareChains(a: seq<byte>, b: seq<byte>, c: seq<byte>)
    requires Compare(a, b) <= 0 && Compare(b, c) <= 0
    ensures Compare(a, c) <= 0
  {
    if a != [] && b != [] && c != [] && a[0] == b[0] == c[0] { CompareChains(a[1..], b[1..], c[1..]); }
  }

  lemma {:induction false} CompareTellsApart(a: seq<byte>, b: seq<byte>)
    ensures Compare(a, b) == 0 <==> a == b
  {
    if a != [] && b != [] {
      CompareTellsApart(a[1..], b[1..]);
      assert a == [a[0]] + a[1..] && b == [b[0]] + b[1..];
    }
  }

  /** Strings are in three-way order, and only equal texts compare as equal. */
  lemma StringsAreOrdered()
    ensures ThreeWay(StringCompare)
    ensures forall a, b :: StringCompare(a, b) == 0 <==> Text(a.bytes) == Text(b.bytes)
  {
    var cmp := StringCompare;
    forall a, b ensures Mirrored(cmp, a, b) { CompareMirrors(Text(a.bytes), Text(b.bytes)); }
    forall a, b, c ensures Chained(cmp, a, b, c) {
      if cmp(a, b) <= 0 && cmp(b, c) <= 0 { CompareChains(Text(a.bytes), Text(b.bytes), Text(c.bytes)); }
    }
    forall a, b ensures cmp(a, b) == 0 <==> Text(a.bytes) == Text(b.bytes) {
      CompareTellsApart(Text(a.bytes), Text(b.bytes));
    }
  }

  lemma {:induction false} CompareFrom(a: seq<byte>, b: seq<byte>, i: nat)
    requires i <= |a| && i <= |b| && a[..i] == b[..i]
    ensures Compare(a, b) == Compare(a[i..], b[i..])
  {
    if i > 0 {
      assert a[0] == a[..i][0] == b[..i][0] == b[0];
      assert a[1..][..i - 1] == a[..i][1..] && b[1..][..i - 1] == b[..i][1..];
      CompareFrom(a[1..], b[1..], i - 1);
      assert a[1..][i - 1..] == a[i..] && b[1..][i - 1..] == b[i..];
    } else {
      assert a[0..] == a && b[0..] == b;
    }
  }

  /** The value: the difference of the first differing characters, or of the lengths. */
  lemma CompareValue(a: seq<byte>, b: seq<byte>, i: nat)
    requires i <= |a| && i <= |b| && a[..i] == b[..i]
    ensures i < |a| && i < |b| && a[i] != b[i] ==> Compare(a, b) == Char(a[i]) - Char(b[i])
    ensures i == |a| || i == |b| ==> Compare(a, b) == |a| - |b|
  {
    CompareFrom(a, b, i);
  }

  lemma TextsInOrder(a: Blob, b: Blob)
    ensures StringCompare(a, b) < 0 <==> Precedes(Text(a.bytes), Text(b.bytes))
    ensures StringCompare(a, b) > 0 <==> Precedes(Text(b.bytes), Text(a.bytes))
  {
    CompareIsDictionaryOrder(Text(a.bytes), Text(b.bytes));
    CompareIsDictionaryOrder(Text(b.bytes), Text(a.bytes));
    CompareMirrors(Text(a.bytes), Text(b.bytes));
  }

  /** utils/utils.c:43-56 */
  method StringComparator(a: Blob, b: Blob) returns (r: int)
    ensures r == StringCompare(a, b)
    // below zero exactly if the first text comes first in the dictionary
    ensures r < 0 <==> Precedes(Text(a.bytes), Text(b.bytes))
    ensures r > 0 <==> Precedes(Text(b.bytes), Text(a.bytes))
  {
    TextsInOrder(a, b);
    r := CompareTexts(Text(a.bytes), Text(b.bytes));
  }

  /** The loop over both texts. */
  method CompareTexts(achar: seq<byte>, bchar: seq<byte>) returns (r: int)
    ensures r == Compare(achar, bchar)
  {
    var alen, blen := |achar|, |bchar|;
    var cmplen := if alen < blen then alen else blen;
    for i := 0 to cmplen
      invariant achar[..i] == bchar[..i]
    {
      CompareFrom(achar, bchar, i);
      if achar[i] != bchar[i] {
        return Char(achar[i]) - Char(bchar[i]);
      }
    }
    CompareFrom(achar, bchar, cmplen);
    if alen != blen {
      return alen - blen;
    }
    return 0;
  }
}
