/**
 The constraint system of blockchain/circuits/homomorphic_vote.circom: an accepted pair
 (C1, C2) is an encryption of a bit. Signals are residues modulo p.
 */
module VoteCircuit {
  import opened Circuits
  import opened Modular
  import opened Primes
  import opened Edwards
  import opened CurveGroup
  import opened ElGamal

  const R_BITS := 254       // outputs of the strict decomposition of r
  const SCALAR_BITS := 253  // of which the scalar multiplications consume all but the top one

  /** Little-endian value of a list of bits. */
  function BitsValue(bits: seq<int>): int {
    if bits == [] then 0 else bits[0] + 2 * BitsValue(bits[1..])
  }

  /** BabyAdd: the outputs times the denominators are the numerators. */
  ghost predicate AdditionConstraint(c: Curve, q: Point, r: Point, out: Point)
    requires IsPrime(c.p)
  {
    && 0 <= out.x < c.p && 0 <= out.y < c.p
    && Cong(c.p, out.x * (1 + c.Tau(q, r)), c.At(q).N(c.At(r)))
    && Cong(c.p, out.y * (1 - c.Tau(q, r)), c.At(q).M(c.At(r)))
  }

  /** The witness of the circuit: the vote, the randomness and its decomposition. */
  datatype Witness = Witness(v: int, r: int, bits: seq<int>)

  ghost predicate Constraints(c: Curve, g: Point, pk: Point, e: Ciphertext, w: Witness)
    requires IsPrime(c.p)
  {
    && 0 <= w.v < c.p && 0 <= w.r < c.p
    && Zero(c.p, w.v * (1 - w.v))
    && |w.bits| == R_BITS && (forall i :: 0 <= i < R_BITS ==> IsBit(w.bits[i])) && BitsValue(w.bits) == w.r
    && (var s := BitsValue(w.bits[..SCALAR_BITS]);
        && 0 <= s
        && e.c1 == Times(c, s, g)
        && AdditionConstraint(c, Point(Mux(c.p, NEUTRAL.x, g.x, w.v), Mux(c.p, NEUTRAL.y, g.y, w.v)), Times(c, s, pk),
                              e.c2))
  }

  lemma BitFromConstraint(p: int, v: int)
    requires IsPrime(p) && 0 <= v < p && Zero(p, v * (1 - v))
    ensures IsBit(v)
  {
    ZeroProduct(p, v, 1 - v);
    Small(p, v);
    if v >= 2 {
      MultipleAdds(p, 1 - v, 1);
      Small(p, 1 - v + p);
    }
  }

  lemma SelectorIsMultiple(c: Curve, g: Point, v: int)
    requires c.Complete() && c.OnCurve(g) && IsBit(v)
    ensures Point(Mux(c.p, NEUTRAL.x, g.x, v), Mux(c.p, NEUTRAL.y, g.y, v)) == Times(c, v, g)
  {
    hide Curve.Sum, Curve.OnCurve;
    MuxSelects(c.p, 0, g.x, v);
    MuxSelects(c.p, 1, g.y, v);
    TimesOne(c, g);
  }

  lemma AdditionConstraintIsSum(c: Curve, q: Point, r: Point, out: Point)
    requires c.Complete() && c.OnCurve(q) && c.OnCurve(r)
    ensures AdditionConstraint(c, q, r, out) <==> out == c.Sum(q, r)
  {
    SumFractions(c, q, r);
    if AdditionConstraint(c, q, r, out) {
      QuotientIs(c.p, c.At(q).N(c.At(r)), 1 + c.Tau(q, r), out.x);
      QuotientIs(c.p, c.At(q).M(c.At(r)), 1 - c.Tau(q, r), out.y);
    }
  }

  /**
   What an accepted proof certifies: the ciphertext encrypts a bit under pk. Both components use the low
   253 bits of r, so the randomness cancels even when r has its top bit set.
   */
  lemma CircuitSound(c: Curve, g: Point, pk: Point, e: Ciphertext, w: Witness)
    requires c.Complete() && c.OnCurve(g) && c.OnCurve(pk) && Constraints(c, g, pk, e, w)
    ensures IsBit(w.v) && 0 <= BitsValue(w.bits[..SCALAR_BITS])
    ensures e == Encrypt(c, g, pk, Opening(w.v, BitsValue(w.bits[..SCALAR_BITS])))
    ensures BitsValue(w.bits[..SCALAR_BITS]) == w.r % Power2(SCALAR_BITS)
  {
    hide Curve.Sum, Curve.OnCurve, Power2;
    LowBits(w.bits, SCALAR_BITS);
    BitsBound(w.bits[..SCALAR_BITS]);
    BitFromConstraint(c.p, w.v);
    SelectorIsMultiple(c, g, w.v);
    var s := BitsValue(w.bits[..SCALAR_BITS]);
    TimesOnCurve(c, s, pk);
    TimesOnCurve(c, w.v, g);
    AdditionConstraintIsSum(c, Times(c, w.v, g), Times(c, s, pk), e.c2);
  }

  lemma {:induction false} BitsBound(bits: seq<int>)
    requires forall i :: 0 <= i < |bits| ==> IsBit(bits[i])
    ensures 0 <= BitsValue(bits) < Power2(|bits|)
  {
    if bits != [] {
      BitsBound(bits[1..]);
    }
  }

  lemma {:induction false} BitsSplit(bits: seq<int>, n: nat)
    requires n <= |bits|
    ensures BitsValue(bits) == BitsValue(bits[..n]) + Power2(n) * BitsValue(bits[n..])
  {
    if n == 0 {
      assert bits[n..] == bits;
    } else {
      BitsSplit(bits[1..], n - 1);
      assert bits[1..][..n - 1] == bits[..n][1..] && bits[1..][n - 1..] == bits[n..];
      Regroup(2, Power2(n - 1), BitsValue(bits[n..]));
    }
  }

  /** The value of the first n bits is the remainder modulo 2^n. */
  lemma LowBits(bits: seq<int>, n: nat)
    requires n <= |bits| && forall i :: 0 <= i < |bits| ==> IsBit(bits[i])
    ensures BitsValue(bits[..n]) == BitsValue(bits) % Power2(n)
  {
    BitsSplit(bits, n);
    BitsBound(bits[..n]);
    RemainderIs(BitsValue(bits), Power2(n), BitsValue(bits[n..]), BitsValue(bits[..n]));
  }

  lemma RemainderIs(n: int, m: nat, h: int, r: int)
    requires n == r + m * h && 0 <= r < m
    ensures r == n % m
  {
    if m > 1 {
      assert m * h == h * m;
      QuotientUnique(m, n, h, r);
    }
  }

  /** Completeness: an honest encryption of a bit satisfies the constraints. */
  lemma CircuitComplete(c: Curve, g: Point, pk: Point, w: Witness)
    requires c.Complete() && c.OnCurve(g) && c.OnCurve(pk)
    requires IsBit(w.v) && 0 <= w.r < c.p
    requires |w.bits| == R_BITS && (forall i :: 0 <= i < R_BITS ==> IsBit(w.bits[i])) && BitsValue(w.bits) == w.r
    ensures 0 <= BitsValue(w.bits[..SCALAR_BITS])
    ensures Constraints(c, g, pk, Encrypt(c, g, pk, Opening(w.v, BitsValue(w.bits[..SCALAR_BITS]))), w)
  {
    hide Curve.Sum, Curve.OnCurve, Power2, AdditionConstraint;
    BitsBound(w.bits[..SCALAR_BITS]);
    var s := BitsValue(w.bits[..SCALAR_BITS]);
    Small(c.p, 0);
    assert w.v * (1 - w.v) == 0;
    SelectorIsMultiple(c, g, w.v);
    TimesOnCurve(c, s, pk);
    TimesOnCurve(c, w.v, g);
    AdditionConstraintIsSum(c, Times(c, w.v, g), Times(c, s, pk), c.Sum(Times(c, w.v, g), Times(c, s, pk)));
  }
}
