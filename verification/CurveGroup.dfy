/** Multiples of a curve point, and the point arithmetic behind double-and-add and discrete logarithms. */
module CurveGroup {
  import opened Modular
  import opened Primes
  import opened Edwards

  /** k-fold addition, the specification of scalar multiplication. */
  ghost function Times(c: Curve, k: nat, q: Point): Point
    requires IsPrime(c.p)
  {
    if k == 0 then NEUTRAL else c.Sum(Times(c, k - 1, q), q)
  }

  /** The addition of the code: the neutral element is tested for before the formula is used. */
  ghost function Add(c: Curve, q: Point, r: Point): Point
    requires IsPrime(c.p)
  {
    if q == NEUTRAL then r else if r == NEUTRAL then q else c.Sum(q, r)
  }

  /**
   Any residues congruent to the numerators and denominators of the formula give its result.
   This is how both implementations are related to it.
   */
  lemma ResiduesGiveSum(c: Curve, q: Point, r: Point, xNum: int, xDen: int, yNum: int, yDen: int)
    requires IsPrime(c.p)
    requires Cong(c.p, xNum, q.x * r.y + q.y * r.x) && Cong(c.p, yNum, q.y * r.y - c.a * (q.x * r.x))
    requires Cong(c.p, xDen, 1 + c.d * (q.x * r.x) * (q.y * r.y))
    requires Cong(c.p, yDen, 1 - c.d * (q.x * r.x) * (q.y * r.y))
    ensures Point((xNum * Inv(c.p, xDen)) % c.p, (yNum * Inv(c.p, yDen)) % c.p) == c.Sum(q, r)
  {
    Regroup(c.a, q.x, r.x);
    Regroup(c.d, q.x * r.x, q.y * r.y);
    Shuffle(q.x, r.x, q.y, r.y);
    Shuffle(q.x, q.y, r.x, r.y);
    InvCong(c.p, xDen, 1 + c.Tau(q, r));
    InvCong(c.p, yDen, 1 - c.Tau(q, r));
    Scale(c.p, Inv(c.p, xDen), xNum, c.At(q).N(c.At(r)));
    Scale(c.p, Inv(c.p, yDen), yNum, c.At(q).M(c.At(r)));
  }

  /** The residues that both implementations compute on the way to a sum. */
  datatype Residues = Residues(xx: int, yy: int, t: int, xNum: int, xDen: int, yNum: int, yDen: int)

  function ResiduesOf(c: Curve, q: Point, r: Point): Residues
    requires 0 < c.p
  {
    var xx, yy := (q.x * r.x) % c.p, (q.y * r.y) % c.p;
    var t := ((c.d * xx) % c.p * yy) % c.p;
    Residues(xx, yy, t,
             ((q.x * r.y) % c.p + (q.y * r.x) % c.p) % c.p, (1 + t) % c.p,
             (yy + c.p - (c.a * xx) % c.p) % c.p, (1 + c.p - t) % c.p)
  }

  lemma ResiduesCorrect(c: Curve, q: Point, r: Point)
    requires IsPrime(c.p)
    ensures var s := ResiduesOf(c, q, r);
            Point((s.xNum * Inv(c.p, s.xDen)) % c.p, (s.yNum * Inv(c.p, s.yDen)) % c.p) == c.Sum(q, r)
  {
    var p, s := c.p, ResiduesOf(c, q, r);
    TauResidue(p, c.d, q.x * r.x, q.y * r.y);
    Reduce(p, q.x * r.y + q.y * r.x);
    SumResidue(p, q.x * r.y, q.y * r.x);
    CongAdd(p, 1, 1, s.t, c.d * (q.x * r.x) * (q.y * r.y));
    Reduce(p, 1 + s.t);
    DifferenceResidue(p, 1, s.t);
    NumeratorResidue(p, c.a, q.x * r.x, q.y * r.y);
    ResiduesGiveSum(c, q, r, s.xNum, s.xDen, s.yNum, s.yDen);
  }

  /** None of the intermediate values is negative, so no truncation or borrow can show. */
  lemma ResiduesNatural(c: Curve, q: Point, r: Point)
    requires IsPrime(c.p) && 0 <= c.a && 0 <= c.d && 0 <= q.x && 0 <= q.y && 0 <= r.x && 0 <= r.y
    ensures var s := ResiduesOf(c, q, r);
            && 0 <= q.x * r.x && 0 <= q.y * r.y && 0 <= q.x * r.y && 0 <= q.y * r.x
            && 0 <= c.d * s.xx && 0 <= (c.d * s.xx) % c.p * s.yy && 0 <= c.a * s.xx
            && 0 <= s.xNum * Inv(c.p, s.xDen) && 0 <= s.yNum * Inv(c.p, s.yDen)
            && s.t < c.p && (c.a * s.xx) % c.p < c.p
            && 0 <= s.xNum < c.p && 0 <= s.yNum < c.p && 0 <= s.xDen < c.p && 0 <= s.yDen < c.p
  {
  }

  lemma TauResidue(p: Modulus, d: int, x: int, y: int)
    ensures Cong(p, ((d * (x % p)) % p * (y % p)) % p, d * x * y)
  {
    Reduce(p, x);
    Reduce(p, y);
    Scale(p, d, x % p, x);
    Reduce(p, d * (x % p));
    CongMul(p, (d * (x % p)) % p, d * x, y % p, y);
    Reduce(p, (d * (x % p)) % p * (y % p));
  }

  lemma SumResidue(p: Modulus, x: int, y: int)
    ensures Cong(p, (x % p + y % p) % p, x + y)
  {
    Reduce(p, x);
    Reduce(p, y);
    CongAdd(p, x % p, x, y % p, y);
    Reduce(p, x % p + y % p);
  }

  lemma DifferenceResidue(p: Modulus, x: int, y: int)
    ensures Cong(p, (x + p - y) % p, x - y)
  {
    MultipleAdds(p, x - y, 1);
    Reduce(p, x + p - y);
  }

  lemma NumeratorResidue(p: Modulus, a: int, x: int, y: int)
    ensures Cong(p, (y % p + p - (a * (x % p)) % p) % p, y - a * x)
  {
    Reduce(p, x);
    Reduce(p, y);
    Scale(p, a, x % p, x);
    Reduce(p, a * (x % p));
    CongAdd(p, y % p, y, (a * (x % p)) % p, a * x);
    DifferenceResidue(p, y % p, (a * (x % p)) % p);
  }

  /** On the curve the shortcut changes nothing. */
  lemma AddIsSum(c: Curve, q: Point, r: Point)
    requires c.Complete() && c.OnCurve(q) && c.OnCurve(r)
    ensures Add(c, q, r) == c.Sum(q, r) && c.OnCurve(Add(c, q, r))
  {
    SumNeutral(c, q);
    SumNeutral(c, r);
    SumOnCurve(c, q, r);
  }

  /** Reduced coordinates, on the curve or not. */
  predicate Reduced(c: Curve, q: Point) {
    0 <= q.x < c.p && 0 <= q.y < c.p
  }

  lemma AddReduced(c: Curve, q: Point, r: Point)
    requires IsPrime(c.p) && Reduced(c, q) && Reduced(c, r)
    ensures Reduced(c, Add(c, q, r))
  {
    hide IsPrime;
  }

  lemma {:induction false} TimesOnCurve(c: Curve, k: nat, q: Point)
    requires c.Complete() && c.OnCurve(q)
    ensures c.OnCurve(Times(c, k, q))
  {
    if k == 0 {
      NeutralOnCurve(c);
    } else {
      TimesOnCurve(c, k - 1, q);
      SumOnCurve(c, Times(c, k - 1, q), q);
    }
  }

  /** (j + k)P = jP + kP */
  lemma {:induction false} TimesAdd(c: Curve, j: nat, k: nat, q: Point)
    requires c.Complete() && c.OnCurve(q)
    ensures Times(c, j + k, q) == c.Sum(Times(c, j, q), Times(c, k, q))
  {
    hide Curve.Sum;
    TimesOnCurve(c, j, q);
    if k == 0 {
      SumNeutral(c, Times(c, j, q));
    } else {
      TimesAdd(c, j, k - 1, q);
      TimesOnCurve(c, k - 1, q);
      SumAssociative(c, Times(c, j, q), Times(c, k - 1, q), q);
    }
  }

  lemma TimesOne(c: Curve, q: Point)
    requires c.Complete() && c.OnCurve(q)
    ensures Times(c, 1, q) == q && Times(c, 2, q) == c.Sum(q, q)
  {
    SumNeutral(c, q);
  }

  /** (jk)P = j(kP) */
  lemma {:induction false} TimesTimes(c: Curve, j: nat, k: nat, q: Point)
    requires c.Complete() && c.OnCurve(q)
    ensures Times(c, j * k, q) == Times(c, j, Times(c, k, q))
  {
    hide Curve.Sum;
    if j != 0 {
      TimesTimes(c, j - 1, k, q);
      assert j * k == (j - 1) * k + k;
      assert (j - 1) * k >= 0;
      TimesAdd(c, (j - 1) * k, k, q);
    }
  }

  lemma Interchange(c: Curve, q: Point, r: Point, s: Point, t: Point)
    requires c.Complete() && c.OnCurve(q) && c.OnCurve(r) && c.OnCurve(s) && c.OnCurve(t)
    ensures c.Sum(c.Sum(q, r), c.Sum(s, t)) == c.Sum(c.Sum(q, s), c.Sum(r, t))
  {
    SumOnCurve(c, s, t);
    SumOnCurve(c, r, t);
    SumAssociative(c, q, r, c.Sum(s, t));
    SumAssociative(c, r, s, t);
    SumCommutes(c, r, s);
    SumAssociative(c, s, r, t);
    SumAssociative(c, q, s, c.Sum(r, t));
  }

  /** k(P + Q) = kP + kQ */
  lemma {:induction false} TimesSum(c: Curve, k: nat, q: Point, r: Point)
    requires c.Complete() && c.OnCurve(q) && c.OnCurve(r)
    ensures Times(c, k, c.Sum(q, r)) == c.Sum(Times(c, k, q), Times(c, k, r))
  {
    hide Curve.Sum;
    if k == 0 {
      NeutralOnCurve(c);
      SumNeutral(c, NEUTRAL);
    } else {
      TimesSum(c, k - 1, q, r);
      TimesOnCurve(c, k - 1, q);
      TimesOnCurve(c, k - 1, r);
      Interchange(c, Times(c, k - 1, q), Times(c, k - 1, r), q, r);
    }
  }

  /** q + r - r = q */
  lemma AddThenSubtract(c: Curve, q: Point, r: Point)
    requires c.Complete() && c.OnCurve(q) && c.OnCurve(r)
    ensures c.Sum(c.Sum(q, r), c.Neg(r)) == q && c.Sum(c.Sum(q, c.Neg(r)), r) == q
  {
    NegOnCurve(c, r);
    SumInverse(c, r);
    SumAssociative(c, q, r, c.Neg(r));
    SumCommutes(c, r, c.Neg(r));
    SumAssociative(c, q, c.Neg(r), r);
    SumNeutral(c, q);
  }

  lemma CancelRight(c: Curve, q: Point, r: Point, s: Point)
    requires c.Complete() && c.OnCurve(q) && c.OnCurve(r) && c.OnCurve(s)
    requires c.Sum(q, s) == c.Sum(r, s)
    ensures q == r
  {
    AddThenSubtract(c, q, s);
    AddThenSubtract(c, r, s);
  }

  /** No positive multiple of g up to n is the neutral element. */
  ghost predicate OrderAbove(c: Curve, g: Point, n: nat)
    requires IsPrime(c.p)
  {
    forall k :: 0 < k <= n ==> Times(c, k, g) != NEUTRAL
  }

  lemma TimesInjective(c: Curve, g: Point, n: nat, j: nat, k: nat)
    requires c.Complete() && c.OnCurve(g) && OrderAbove(c, g, n)
    requires j <= n && k <= n && Times(c, j, g) == Times(c, k, g)
    ensures j == k
  {
    if j < k {
      NoRepeat(c, g, n, j, k);
    } else if k < j {
      NoRepeat(c, g, n, k, j);
    }
  }

  lemma NoRepeat(c: Curve, g: Point, n: nat, j: nat, k: nat)
    requires c.Complete() && c.OnCurve(g) && OrderAbove(c, g, n) && j < k <= n
    ensures Times(c, j, g) != Times(c, k, g)
  {
    hide Curve.Sum;
    var t := Times(c, j, g);
    TimesAdd(c, k - j, j, g);
    TimesOnCurve(c, j, g);
    TimesOnCurve(c, k - j, g);
    NeutralOnCurve(c);
    SumNeutral(c, t);
    if Times(c, j, g) == Times(c, k, g) {
      CancelRight(c, Times(c, k - j, g), NEUTRAL, t);
    }
  }
}
