/** Pieces that both circuits use: the one-bit multiplexer of circomlib and powers of two. */
module Circuits {
  import opened Modular

  function Power2(n: nat): (m: nat)
    ensures 1 <= m
  {
    if n == 0 then 1 else 2 * Power2(n - 1)
  }

  predicate IsBit(b: int) {
    b == 0 || b == 1
  }

  /** An output of Mux1 or MultiMux1 is linear in the selector. */
  function Mux(p: int, c0: int, c1: int, s: int): int
    requires 0 < p
  {
    ((c1 - c0) * s + c0) % p
  }

  lemma MuxSelects(p: int, c0: int, c1: int, s: int)
    requires 1 < p && IsBit(s) && 0 <= c0 < p && 0 <= c1 < p
    ensures Mux(p, c0, c1, s) == if s == 0 then c0 else c1
  {
    Small(p, c0);
    Small(p, c1);
  }
}
