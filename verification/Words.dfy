/** 32-bit unsigned counters, and powers of two. */
module Words {

  const WORD := 0x1_0000_0000

  /** The value a 32-bit counter shows after counting to `n`. */
  function Wrap(n: int): (w: nat)
    ensures w < WORD
  {
    n % WORD
  }

  lemma WrapUp(n: int)
    ensures Wrap(Wrap(n) + 1) == Wrap(n + 1)
  {}

  lemma WrapDown(n: int)
    ensures Wrap(Wrap(n) - 1) == Wrap(n - 1)
  {}

  lemma WrapSmall(n: int)
    requires 0 <= n < WORD
    ensures Wrap(n) == n
  {}

  lemma CountUp(size: nat, n: int, size': nat, n': int)
    requires size == Wrap(n)
    requires (size' == size && n' == n) || (size' == Wrap(size + 1) && n' == n + 1)
    ensures size' == Wrap(n')
  {}

  lemma CountDown(size: nat, n: int, size': nat, n': int)
    requires size == Wrap(n)
    requires (size' == size && n' == n) || (size' == Wrap(size - 1) && n' == n - 1)
    ensures size' == Wrap(n')
  {}

  function Power2(n: nat): (p: nat)
    ensures p > 0
  {
    if n == 0 then 1 else 2 * Power2(n - 1)
  }
}
