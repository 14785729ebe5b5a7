/** Arithmetic in the prime field of p elements: inverses, cancellation, Fermat's little theorem. */
module Primes {
  import opened Modular

  ghost predicate IsPrime(p: int) {
    1 < p && forall m :: 1 < m < p ==> p % m != 0
  }

  /** Every nonzero residue has an inverse. */
  lemma {:induction false} InverseExists(p: int, v: int) returns (z: int)
    requires IsPrime(p) && 1 <= v < p
    ensures Cong(p, v * z, 1)
    decreases v
  {
    if v == 1 {
      z := 1;
    } else {
      var q, r := p / v, p % v;
      assert p == q * v + r;
      var y := InverseExists(p, r);
      z := -q * y;
      // r is congruent to -q * v, so v * (-q * y) is congruent to r * y
      assert v * z == r * y + (-y) * p by {
        assert r == p - q * v;
        assert r * y == p * y - (q * v) * y;
      }
      ByWitness(p, v * z, r * y, -y);
    }
  }

  /** The field inverse, extended by 0 at 0: specified by what it satisfies, not by an algorithm. */
  ghost function Inv(p: int, v: int): (z: int)
    requires IsPrime(p)
    ensures 0 <= z < p
    ensures Zero(p, v) ==> z == 0
    ensures !Zero(p, v) ==> Cong(p, v * z, 1)
  {
    if Zero(p, v) then 0 else
      InverseExistsReduced(p, v);
      var z :| 0 <= z < p && Cong(p, v * z, 1);
      z
  }

  lemma InverseExistsReduced(p: int, v: int)
    requires IsPrime(p) && !Zero(p, v)
    ensures exists z :: 0 <= z < p && Cong(p, v * z, 1)
  {
    var y := InverseExists(p, v % p);
    Reduce(p, v);
    Reduce(p, y);
    CongMul(p, v, v % p, y % p, y);
    assert 0 <= y % p < p && Cong(p, v * (y % p), 1);
  }

  lemma Cancel(p: int, c: int, a: int, b: int)
    requires IsPrime(p) && !Zero(p, c) && Cong(p, c * a, c * b)
    ensures Cong(p, a, b)
  {
    var z := Inv(p, c);
    Scale(p, z, c * a, c * b);
    CongMul(p, c * z, 1, a, a);
    CongMul(p, c * z, 1, b, b);
    Regroup(z, c, a);
    Regroup(z, c, b);
    assert z * c == c * z;
  }

  lemma ZeroProduct(p: int, a: int, b: int)
    requires IsPrime(p)
    ensures Zero(p, a * b) <==> Zero(p, a) || Zero(p, b)
  {
    Small(p, 0);
    if Zero(p, a) { CongMul(p, a, 0, b, b); }
    if Zero(p, b) { CongMul(p, a, a, b, 0); }
    if Zero(p, a * b) && !Zero(p, a) {
      assert a * 0 == 0;
      Cancel(p, a, b, 0);
    }
  }

  lemma InvUnique(p: int, v: int, z: int)
    requires IsPrime(p) && 0 <= z < p
    requires Zero(p, v) ==> z == 0
    requires !Zero(p, v) ==> Cong(p, v * z, 1)
    ensures z == Inv(p, v)
  {
    if !Zero(p, v) {
      Cancel(p, v, z, Inv(p, v));
      Small(p, z);
      Small(p, Inv(p, v));
    }
  }

  lemma InvCong(p: int, v: int, w: int)
    requires IsPrime(p) && Cong(p, v, w)
    ensures Inv(p, v) == Inv(p, w)
  {
    if !Zero(p, v) {
      CongMul(p, v, w, Inv(p, v), Inv(p, v));
    }
    InvUnique(p, w, Inv(p, v));
  }

  // ---------- Fermat's little theorem ----------

  function Pow(b: int, e: nat): int {
    if e == 0 then 1 else b * Pow(b, e - 1)
  }

  lemma {:induction false} PowAdd(b: int, e: nat, f: nat)
    ensures Pow(b, e + f) == Pow(b, e) * Pow(b, f)
  {
    if e != 0 {
      PowAdd(b, e - 1, f);
      Regroup(b, Pow(b, e - 1), Pow(b, f));
    }
  }

  lemma {:induction false} PowCong(p: Modulus, a: int, b: int, e: nat)
    requires Cong(p, a, b)
    ensures Cong(p, Pow(a, e), Pow(b, e))
  {
    if e != 0 {
      PowCong(p, a, b, e - 1);
      CongMul(p, a, b, Pow(a, e - 1), Pow(b, e - 1));
    }
  }

  /** The product of a finite set of naturals. */
  ghost function Product(s: set<nat>): int
  {
    if s == {} then 1 else
      var x :| x in s;
      x * Product(s - {x})
  }

  lemma {:induction false} ProductRemove(s: set<nat>, x: nat)
    requires x in s
    ensures Product(s) == x * Product(s - {x})
    decreases s
  {
    var y :| y in s && Product(s) == y * Product(s - {y});
    if y != x {
      ProductRemove(s - {y}, x);
      ProductRemove(s - {x}, y);
      assert s - {y} - {x} == s - {x} - {y};
      var t := Product(s - {x} - {y});
      Regroup(x, y, t);
      Regroup(y, x, t);
    }
  }

  ghost function Image(p: Modulus, a: int, x: nat): nat {
    (a * x) % p
  }

  ghost function Scaled(p: Modulus, a: int, s: set<nat>): set<nat> {
    set x | x in s :: Image(p, a, x)
  }

  lemma ImageInjective(p: int, a: int, x: nat, y: nat)
    requires IsPrime(p) && !Zero(p, a)
    requires 0 < x < p && 0 < y < p && Image(p, a, x) == Image(p, a, y)
    ensures x == y
  {
    Cancel(p, a, x, y);
    Small(p, x);
    Small(p, y);
  }

  /** Multiplication by a nonzero residue is injective, so one element adds one image. */
  lemma ScaledInsert(p: int, a: int, s: set<nat>, x: nat)
    requires IsPrime(p) && !Zero(p, a)
    requires x in s && forall y :: y in s ==> 0 < y < p
    ensures Image(p, a, x) in Scaled(p, a, s)
    ensures Scaled(p, a, s) - {Image(p, a, x)} == Scaled(p, a, s - {x})
  {
    forall y | y in s && Image(p, a, y) == Image(p, a, x)
      ensures y == x
    {
      ImageInjective(p, a, x, y);
    }
  }

  lemma {:induction false} ScaledProduct(p: int, a: int, s: set<nat>)
    requires IsPrime(p) && !Zero(p, a)
    requires forall x :: x in s ==> 0 < x < p
    ensures |Scaled(p, a, s)| == |s|
    ensures Cong(p, Product(Scaled(p, a, s)), Pow(a, |s|) * Product(s))
    decreases s
  {
    if s == {} {
      assert Scaled(p, a, s) == {};
    } else {
      var x :| x in s;
      ScaledProduct(p, a, s - {x});
      ScaledInsert(p, a, s, x);
      ProductRemove(Scaled(p, a, s), Image(p, a, x));
      ProductRemove(s, x);
      ScaledStep(p, a, x, Pow(a, |s - {x}|), Product(s - {x}), Product(Scaled(p, a, s - {x})));
    }
  }

  lemma ScaledStep(p: Modulus, a: int, x: nat, t: int, u: int, w: int)
    requires Cong(p, w, t * u)
    ensures Cong(p, Image(p, a, x) * w, (a * t) * (x * u))
  {
    Reduce(p, a * x);
    CongMul(p, Image(p, a, x), a * x, w, t * u);
    Shuffle(a, x, t, u);
  }

  lemma {:induction false} ProductNonzero(p: int, s: set<nat>)
    requires IsPrime(p)
    requires forall x :: x in s ==> 0 < x < p
    ensures !Zero(p, Product(s))
    decreases s
  {
    if s == {} {
      Small(p, 1);
    } else {
      var x :| x in s;
      ProductNonzero(p, s - {x});
      ProductRemove(s, x);
      Small(p, x);
      ZeroProduct(p, x, Product(s - {x}));
    }
  }

  ghost function UpTo(n: nat): (s: set<nat>)
    ensures |s| == n
    ensures forall x :: x in s <==> 0 < x <= n
  {
    if n == 0 then {} else UpTo(n - 1) + {n}
  }

  lemma SubsetSameSize(s: set<nat>, t: set<nat>)
    requires s <= t && |s| == |t|
    ensures s == t
  {
    var rest := t - s;
    assert t == s + rest && |s + rest| == |s| + |rest|;
    assert |rest| == 0;
  }

  lemma Fermat(p: int, a: int)
    requires IsPrime(p) && !Zero(p, a)
    ensures Cong(p, Pow(a, p - 1), 1)
  {
    var s := UpTo(p - 1);
    ScaledProduct(p, a, s);
    forall y | y in Scaled(p, a, s)
      ensures y in s
    {
      var x :| x in s && Image(p, a, x) == y;
      Small(p, x);
      ZeroProduct(p, a, x);
    }
    SubsetSameSize(Scaled(p, a, s), s);
    ProductNonzero(p, s);
    assert Product(s) * 1 == Product(s);
    assert Pow(a, p - 1) * Product(s) == Product(s) * Pow(a, p - 1);
    Cancel(p, Product(s), Pow(a, p - 1), 1);
  }

  /** Fermat's form of the inverse: v^(p-2), also right at 0 once p is odd. */
  lemma FermatInverse(p: int, v: int)
    requires IsPrime(p) && p != 2
    ensures Pow(v, p - 2) % p == Inv(p, v)
  {
    var z := Pow(v, p - 2) % p;
    Reduce(p, Pow(v, p - 2));
    assert Pow(v, p - 2) == v * Pow(v, p - 3);
    if Zero(p, v) {
      ZeroProduct(p, v, Pow(v, p - 3));
    } else {
      Fermat(p, v);
      Scale(p, v, z, Pow(v, p - 2));
    }
    InvUnique(p, v, z);
  }
}
