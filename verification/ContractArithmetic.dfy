/**
 The field and curve helpers of blockchain/contracts/HomomorphicTally.sol.
 mulmod and addmod reduce an unbounded intermediate result, so no wrap-around occurs.
 */
module ContractArithmetic {
  import opened Modular
  import opened Primes
  import opened Edwards
  import opened CurveGroup

  function Mulmod(a: nat, b: nat, m: nat): nat
    requires 0 < m
  {
    (a * b) % m
  }

  function Addmod(a: nat, b: nat, m: nat): nat
    requires 0 < m
  {
    (a + b) % m
  }

  /** Squaring the base halves the exponent. */
  lemma {:induction false} PowSquare(b: int, h: nat)
    ensures Pow(b * b, h) == Pow(b, 2 * h)
  {
    if h != 0 {
      PowSquare(b, h - 1);
      assert Pow(b, 2 * h) == b * (b * Pow(b, 2 * (h - 1)));
      Regroup(b, b, Pow(b, 2 * (h - 1)));
    }
  }

  lemma PowParity(b: int, e: nat)
    ensures Pow(b, e) == if e % 2 == 1 then b * Pow(b, 2 * (e / 2)) else Pow(b, 2 * (e / 2))
  {
  }

  /** One round of square-and-multiply keeps result * base^exp unchanged modulo m. */
  lemma PowerStep(m: Modulus, result: nat, base: nat, exp: nat)
    requires exp > 0
    ensures Cong(m, (if exp % 2 == 1 then Mulmod(result, base, m) else result) * Pow(Mulmod(base, base, m), exp / 2),
                    result * Pow(base, exp))
  {
    hide Pow, Mulmod;
    var h := exp / 2;
    PowParity(base, exp);
    PowSquare(base, h);
    MulmodCong(m, base, base);
    PowCong(m, Mulmod(base, base, m), base * base, h);
    var q, q' := Pow(Mulmod(base, base, m), h), Pow(base, 2 * h);
    if exp % 2 == 1 {
      OddStep(m, result, base, q, q');
    } else {
      Scale(m, result, q, q');
    }
  }

  lemma MulmodCong(m: Modulus, a: nat, b: nat)
    ensures Cong(m, Mulmod(a, b, m), a * b)
  {
    Reduce(m, a * b);
  }

  lemma OddStep(m: Modulus, result: nat, base: nat, q: int, q': int)
    requires Cong(m, q, q')
    ensures Cong(m, Mulmod(result, base, m) * q, result * (base * q'))
  {
    Reduce(m, result * base);
    CongMul(m, Mulmod(result, base, m), result * base, q, q');
    Regroup(result, base, q');
  }

  /**
   _modExp: base^exp mod m by square-and-multiply, for every modulus but one: at modulus 1 and exponent 0
   it answers 1, which is not a residue.
   */
  method ModExp(base: nat, exp: nat, mod: nat) returns (result: nat)
    requires 0 < mod
    ensures mod > 1 || exp > 0 <==> result == Pow(base, exp) % mod
    ensures mod == 1 && exp == 0 ==> result == 1
  {
    hide Pow;
    result := 1;
    var b: nat := base % mod;
    var e: nat := exp;
    if mod > 1 {
      Reduce(mod, base);
      PowCong(mod, b, base, exp);
      Small(mod, 1);
    }
    while e > 0
      invariant exp == 0 ==> e == 0 && result == 1
      invariant mod > 1 ==> result < mod && Cong(mod, result * Pow(b, e), Pow(base, exp))
      invariant mod == 1 && e == 0 && exp > 0 ==> result == 0
    {
      if mod > 1 {
        PowerStep(mod, result, b, e);
      }
      if e % 2 == 1 {
        result := Mulmod(result, b, mod);
      }
      b := Mulmod(b, b, mod);
      e := e / 2;
    }
    PowZero(b);
    PowZero(base);
    if mod > 1 {
      Small(mod, result);
    } else {
      assert Pow(base, exp) % mod == 0;
    }
  }

  lemma PowZero(b: int)
    ensures Pow(b, 0) == 1
  {
  }

  /** _modInv: Fermat's form of the inverse. */
  method ModInv(a: nat, p: nat) returns (inverse: nat)
    requires IsPrime(p) && p != 2
    ensures inverse == Inv(p, a)
  {
    inverse := ModExp(a, p - 2, p);
    FermatInverse(p, a);
  }

  /** _babyJubAdd: curve addition over uint256, for arbitrary (also unreduced) coordinates. */
  method BabyJubAdd(c: Curve, x1: nat, y1: nat, x2: nat, y2: nat) returns (x3: nat, y3: nat)
    requires IsPrime(c.p) && c.p != 2 && 0 <= c.a && 0 <= c.d
    ensures Point(x3, y3) == Add(c, Point(x1, y1), Point(x2, y2))
  {
    hide Curve.Sum;
    if x1 == 0 && y1 == 1 { return x2, y2; }
    if x2 == 0 && y2 == 1 { return x1, y1; }
    ResiduesNatural(c, Point(x1, y1), Point(x2, y2));
    ResiduesCorrect(c, Point(x1, y1), Point(x2, y2));
    var p: nat := c.p;
    var x1x2 := Mulmod(x1, x2, p);
    var y1y2 := Mulmod(y1, y2, p);
    var dx1x2y1y2 := Mulmod(Mulmod(c.d, x1x2, p), y1y2, p);
    var x3num := Addmod(Mulmod(x1, y2, p), Mulmod(y1, x2, p), p);
    var x3den := Addmod(1, dx1x2y1y2, p);
    var y3num := Addmod(y1y2, p - Mulmod(c.a, x1x2, p), p);
    var y3den := Addmod(1, p - dx1x2y1y2, p);
    var xInv := ModInv(x3den, p);
    x3 := Mulmod(x3num, xInv, p);
    var yInv := ModInv(y3den, p);
    y3 := Mulmod(y3num, yInv, p);
  }
}
