/** The growing buffers of bss/bss.c. */
module ByteStrings {
  import opened Ordering
  import opened Words

  const HALF := WORD / 2
  const FIRST_CAPACITY := 64

  /** The bytes in use, and how many there is memory for. */
  datatype Bss = Bss(str: seq<byte>, capacity: nat)

  function Empty(): Bss {
    Bss([], FIRST_CAPACITY)
  }

  /** The capacity for `len` more bytes: twice the new size, computed in 32 bits. */
  function Grown(b: Bss, len: nat): nat {
    var wanted := Wrap(2 * (|b.str| + len));
    if b.capacity < wanted then wanted else b.capacity
  }

  /** The bytes after the append lie within the memory of the buffer. */
  predicate Fits(b: Bss, len: nat) {
    |b.str| + len <= Grown(b, len)
  }

  function Appended(b: Bss, s: seq<byte>): Bss {
    Bss(b.str + s, Grown(b, |s|))
  }

  class ByteString {
    var str: array<byte>
    var size: nat

    ghost predicate Valid()
      reads this
    {
      size <= str.Length
    }

    ghost function Value(): Bss
      requires Valid()
      reads this, str
    {
      Bss(str[..size], str.Length)
    }

    constructor ()
      ensures Valid() && Value() == Empty() && fresh(str)
    {
      str, size := new byte[FIRST_CAPACITY](_ => 0), 0;
    }

    /** q__bss_append; it stops where the source would write past its memory. */
    method Append(s: seq<byte>) returns (ok: bool)
      requires Valid()
      modifies this, str
      ensures Valid() && (str == old(str) || fresh(str))
      ensures ok <==> Fits(old(Value()), |s|)
      ensures Value() == if ok then Appended(old(Value()), s) else old(Value())
    {
      var wanted := Wrap(2 * (size + |s|));
      if (if str.Length < wanted then wanted else str.Length) < size + |s| {
        return false;
      }
      if str.Length < wanted {
        var tmp := new byte[wanted](_ => 0);
        forall i | 0 <= i < size {
          tmp[i] := str[i];
        }
        str := tmp;
      }
      forall i | 0 <= i < |s| {
        str[size + i] := s[i];
      }
      size := size + |s|;
      ok := true;
    }
  }

  // ---------- what a buffer goes through ----------

  /** The pieces that have been appended to a buffer, first one first. */
  type History = seq<seq<byte>>

  function Build(h: History): Bss {
    if h == [] then Empty() else Appended(Build(h[..|h| - 1]), h[|h| - 1])
  }

  /** No append of the history goes past the memory. */
  predicate AllFit(h: History) {
    h != [] ==> AllFit(h[..|h| - 1]) && Fits(Build(h[..|h| - 1]), |h[|h| - 1]|)
  }

  function Flat(h: History): seq<byte> {
    if h == [] then [] else Flat(h[..|h| - 1]) + h[|h| - 1]
  }

  /** The last size below 2^31 that the buffer had. */
  function HalfFull(h: History): (n: nat)
    ensures n < HALF && n <= |Flat(h)|
  {
    if h == [] || |Flat(h)| < HALF then |Flat(h)| else HalfFull(h[..|h| - 1])
  }

  /** Below 2^31 bytes, or at most twice as large as it last was below. */
  predicate HasRoom(h: History) {
    |Flat(h)| < HALF || |Flat(h)| <= 2 * HalfFull(h)
  }

  lemma {:induction false} BuildsFlat(h: History)
    ensures Build(h).str == Flat(h)
  {
    if h != [] { BuildsFlat(h[..|h| - 1]); }
  }

  /** The doubling stops being a doubling where it wraps around: a history fits exactly when its
      bytes are fewer than 2^31, or at most twice as many as they last were below that. */
  lemma {:induction false} FitsExactly(h: History)
    ensures AllFit(h) <==> HasRoom(h)
    ensures AllFit(h) ==>
              Build(h).capacity == if 2 * HalfFull(h) > FIRST_CAPACITY then 2 * HalfFull(h) else FIRST_CAPACITY
  {
    if h != [] {
      var init, s := h[..|h| - 1], h[|h| - 1];
      FitsExactly(init);
      BuildsFlat(init);
      if AllFit(init) { OneMore(Build(init), HalfFull(init), |s|); }
    }
  }

  /** One append to a buffer that has last been below 2^31 with `half` bytes. */
  lemma OneMore(b: Bss, half: nat, len: nat)
    requires half < HALF && half <= |b.str| && (|b.str| < HALF ==> half == |b.str|)
    requires b.capacity == if 2 * half > FIRST_CAPACITY then 2 * half else FIRST_CAPACITY
    ensures var total := |b.str| + len;
            if total < HALF
            then Fits(b, len) && Grown(b, len) == if 2 * total > FIRST_CAPACITY then 2 * total else FIRST_CAPACITY
            else (Fits(b, len) <==> total <= 2 * half) && (Fits(b, len) ==> Grown(b, len) == b.capacity)
  {
    var total := |b.str| + len;
    if total < HALF {
      WrapSmall(2 * total);
    } else if total < WORD {
      assert Wrap(2 * total) == 2 * total - WORD;
    }
  }

  lemma {:induction false} FitsBefore(a: History, b: History)
    requires AllFit(a + b)
    ensures AllFit(a)
    decreases |b|
  {
    if b == [] {
      assert a + b == a;
    } else {
      assert (a + b)[..|a + b| - 1] == a + b[..|b| - 1];
      FitsBefore(a, b[..|b| - 1]);
    }
  }

  lemma FlatOne(h: History, s: seq<byte>)
    ensures Flat(h + [s]) == Flat(h) + s
  {
    assert (h + [s])[..|h|] == h;
  }

  /** What goes into a buffer in one piece is smaller than 2^31 bytes. */
  lemma PieceIsSmall(a: History, s: seq<byte>, b: History)
    requires AllFit(a + [s] + b)
    ensures |s| < HALF
  {
    FitsBefore(a + [s], b);
    FitsExactly(a + [s]);
    FlatOne(a, s);
    assert (a + [s])[..|a|] == a;
  }

  /** A path and a counter after it fit into a new buffer whenever the path is small. */
  lemma TwoPiecesFit(s: seq<byte>, t: seq<byte>)
    requires |s| < HALF && |t| == 4
    ensures AllFit([s, t])
  {
    var h := [s, t];
    assert h == [s] + [t] && h[..1] == [s] && [] + [s] == [s] && [s][..0] == [];
    FlatOne([], s);
    FlatOne([s], t);
    FitsExactly(h);
  }
}
