/** Congruence of integers modulo a fixed positive modulus. */
module Modular {

  type Modulus = p: int | 1 < p witness 2

  predicate Cong(p: Modulus, a: int, b: int) {
    a % p == b % p
  }

  predicate Zero(p: Modulus, a: int) {
    a % p == 0
  }

  // ---------- rearranging products ----------

  lemma Regroup(a: int, b: int, c: int)
    ensures (a * b) * c == a * (b * c)
  {
  }

  lemma Shuffle(a: int, b: int, c: int, d: int)
    ensures (a * b) * (c * d) == (a * c) * (b * d) == (a * d) * (b * c)
  {
  }

  lemma Distribute(a: int, b: int, c: int)
    ensures a * (b + c) == a * b + a * c && a * (b - c) == a * b - a * c
  {
  }

  // ---------- congruence ----------

  lemma MultipleAdds(p: Modulus, b: int, k: int)
    ensures (b + k * p) % p == b % p
  {
    var q, r := b / p, b % p;
    QuotientUnique(p, b + k * p, q + k, r);
  }

  lemma QuotientUnique(p: Modulus, n: int, q: int, r: int)
    requires n == q * p + r && 0 <= r < p
    ensures n % p == r && n / p == q
  {
    var d := n / p - q;
    assert d * p == r - n % p by {
      assert n == (n / p) * p + n % p;
      assert (n / p - q) * p == (n / p) * p - q * p;
    }
    NoSmallMultiple(p, d);
  }

  /** A multiple of p lying strictly between -p and p is 0. */
  lemma NoSmallMultiple(p: Modulus, d: int)
    requires -1 * p < d * p < p
    ensures d == 0
  {
    if d >= 1 {
      MulMono(1, d, p);
    } else if d <= -1 {
      MulMono(d, -1, p);
    }
  }

  lemma MulMono(a: int, b: int, p: Modulus)
    requires a <= b
    ensures a * p <= b * p
  {
    assert (b - a) * p == b * p - a * p;
  }

  lemma ByWitness(p: Modulus, a: int, b: int, k: int)
    requires a == b + k * p
    ensures Cong(p, a, b)
  {
    MultipleAdds(p, b, k);
  }

  lemma Witness(p: Modulus, a: int, b: int) returns (k: int)
    requires Cong(p, a, b)
    ensures a == b + k * p
  {
    k := a / p - b / p;
    assert k * p == (a / p) * p - (b / p) * p;
  }

  lemma Reduce(p: Modulus, a: int)
    ensures 0 <= a % p < p && Cong(p, a % p, a)
  {
    QuotientUnique(p, a % p, 0, a % p);
  }

  lemma Small(p: Modulus, a: int)
    requires 0 <= a < p
    ensures a % p == a
  {
    QuotientUnique(p, a, 0, a);
  }

  lemma CongAdd(p: Modulus, a: int, b: int, c: int, d: int)
    requires Cong(p, a, b) && Cong(p, c, d)
    ensures Cong(p, a + c, b + d) && Cong(p, a - c, b - d)
  {
    var k := Witness(p, a, b);
    var l := Witness(p, c, d);
    assert (k + l) * p == k * p + l * p && (k - l) * p == k * p - l * p;
    ByWitness(p, a + c, b + d, k + l);
    ByWitness(p, a - c, b - d, k - l);
  }

  /** Multiplying both sides by the same integer. */
  lemma Scale(p: Modulus, c: int, a: int, b: int)
    requires Cong(p, a, b)
    ensures Cong(p, c * a, c * b) && Cong(p, a * c, b * c)
  {
    var k := Witness(p, a, b);
    assert c * (b + k * p) == c * b + (c * k) * p;
    ByWitness(p, c * a, c * b, c * k);
    assert a * c == c * a && b * c == c * b;
  }

  lemma CongMul(p: Modulus, a: int, b: int, c: int, d: int)
    requires Cong(p, a, b) && Cong(p, c, d)
    ensures Cong(p, a * c, b * d)
  {
    Scale(p, a, c, d);
    Scale(p, d, a, b);
  }

  lemma DifferenceZero(p: Modulus, a: int, b: int)
    ensures Zero(p, a - b) <==> Cong(p, a, b)
  {
    if Cong(p, a, b) {
      CongAdd(p, a, b, b, b);
      Small(p, 0);
    }
    if Zero(p, a - b) {
      Small(p, 0);
      CongAdd(p, a - b, 0, b, b);
    }
  }
}
