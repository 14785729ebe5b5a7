/** The hypotheses on the curve can be met, and the published constants meet the ones that can be computed. */
module Instances {
  import opened Modular
  import opened Primes
  import opened Edwards
  import opened CurveGroup
  import T = TallyAuthority

  /** x^2 + y^2 = 1 + 2*x^2*y^2 over five elements. */
  const SMALL := Curve(5, 1, 2)

  lemma SmallCurveComplete()
    ensures SMALL.Complete()
    ensures SMALL.OnCurve(Point(2, 2))
  {
    forall m | 1 < m < 5 ensures 5 % m != 0 {
      assert m == 2 || m == 3 || m == 4;
    }
    assert IsRoot(5, 1, 1);
    forall s ensures !IsRoot(5, s, 2) {
      Reduce(5, s);
      var r := s % 5;
      CongMul(5, s, r, s, r);
      assert r == 0 || r == 1 || r == 2 || r == 3 || r == 4;
    }
  }

  lemma SumIs(c: Curve, q: Point, r: Point, s: Point)
    requires IsPrime(c.p) && 0 <= s.x < c.p && 0 <= s.y < c.p
    requires !Zero(c.p, 1 + c.Tau(q, r)) && Cong(c.p, s.x * (1 + c.Tau(q, r)), c.At(q).N(c.At(r)))
    requires !Zero(c.p, 1 - c.Tau(q, r)) && Cong(c.p, s.y * (1 - c.Tau(q, r)), c.At(q).M(c.At(r)))
    ensures c.Sum(q, r) == s
  {
    QuotientIs(c.p, c.At(q).N(c.At(r)), 1 + c.Tau(q, r), s.x);
    QuotientIs(c.p, c.At(q).M(c.At(r)), 1 - c.Tau(q, r), s.y);
  }

  /** The multiples of (2, 2), which are all points of the small curve. */
  const MULTIPLES: seq<Point> :=
    [Point(0, 1), Point(2, 2), Point(1, 0), Point(2, 3), Point(0, 4), Point(3, 3), Point(4, 0), Point(3, 2)]

  lemma Sum0()
    requires IsPrime(5)
    ensures SMALL.Sum(Point(0, 1), Point(2, 2)) == Point(2, 2)
  {
    hide IsPrime;
    SumIs(SMALL, Point(0, 1), Point(2, 2), Point(2, 2));
  }

  lemma Sum1()
    requires IsPrime(5)
    ensures SMALL.Sum(Point(2, 2), Point(2, 2)) == Point(1, 0)
  {
    hide IsPrime;
    SumIs(SMALL, Point(2, 2), Point(2, 2), Point(1, 0));
  }

  lemma Sum2()
    requires IsPrime(5)
    ensures SMALL.Sum(Point(1, 0), Point(2, 2)) == Point(2, 3)
  {
    hide IsPrime;
    SumIs(SMALL, Point(1, 0), Point(2, 2), Point(2, 3));
  }

  lemma Sum3()
    requires IsPrime(5)
    ensures SMALL.Sum(Point(2, 3), Point(2, 2)) == Point(0, 4)
  {
    hide IsPrime;
    SumIs(SMALL, Point(2, 3), Point(2, 2), Point(0, 4));
  }

  lemma Sum4()
    requires IsPrime(5)
    ensures SMALL.Sum(Point(0, 4), Point(2, 2)) == Point(3, 3)
  {
    hide IsPrime;
    SumIs(SMALL, Point(0, 4), Point(2, 2), Point(3, 3));
  }

  lemma Sum5()
    requires IsPrime(5)
    ensures SMALL.Sum(Point(3, 3), Point(2, 2)) == Point(4, 0)
  {
    hide IsPrime;
    SumIs(SMALL, Point(3, 3), Point(2, 2), Point(4, 0));
  }

  lemma Sum6()
    requires IsPrime(5)
    ensures SMALL.Sum(Point(4, 0), Point(2, 2)) == Point(3, 2)
  {
    hide IsPrime;
    SumIs(SMALL, Point(4, 0), Point(2, 2), Point(3, 2));
  }

  lemma Sum7()
    requires IsPrime(5)
    ensures SMALL.Sum(Point(3, 2), Point(2, 2)) == Point(0, 1)
  {
    hide IsPrime;
    SumIs(SMALL, Point(3, 2), Point(2, 2), Point(0, 1));
  }

  lemma NextMultiple(k: nat)
    requires k < 8 && IsPrime(5)
    ensures SMALL.Sum(MULTIPLES[k], Point(2, 2)) == MULTIPLES[(k + 1) % 8]
  {
    hide IsPrime, Curve.Sum;
    Sum0(); Sum1(); Sum2(); Sum3(); Sum4(); Sum5(); Sum6(); Sum7();
  }

  lemma {:induction false} SmallMultiples(k: nat)
    requires IsPrime(5)
    ensures Times(SMALL, k, Point(2, 2)) == MULTIPLES[k % 8]
  {
    hide IsPrime, Curve.Sum;
    if k != 0 {
      SmallMultiples(k - 1);
      NextMultiple((k - 1) % 8);
    }
  }

  /** The order of (2, 2) is eight, so that up to seven votes can be counted on the small curve, and no more. */
  lemma SmallOrder(n: nat)
    ensures IsPrime(5) && (OrderAbove(SMALL, Point(2, 2), n) <==> n < 8)
  {
    SmallCurveComplete();
    hide IsPrime, Curve.Sum, Times, Curve.Complete, Curve.OnCurve;
    SmallMultiples(8);
    forall k | 0 < k <= n && n < 8 ensures Times(SMALL, k, Point(2, 2)) != NEUTRAL {
      SmallMultiples(k);
    }
  }

  /** A square root of a = 168700 modulo the BN254 scalar field prime. */
  const ROOT_OF_A := 7214280148105020021932206872019688659210616427216992810330019057549499971851

  lemma RootOfA()
    ensures IsRoot(T.BABY_JUBJUB.p, ROOT_OF_A, T.BABY_JUBJUB.a)
  {
  }

  lemma BaseOnCurve()
    requires IsPrime(T.BABY_JUBJUB.p)
    ensures T.BABY_JUBJUB.OnCurve(T.BASE8)
  {
    hide IsPrime;
  }

  lemma BabyJubJubConstants()
    ensures IsRoot(T.BABY_JUBJUB.p, ROOT_OF_A, T.BABY_JUBJUB.a)
    ensures T.BABY_JUBJUB.p % 2 == 1 && !Zero(T.BABY_JUBJUB.p, T.BABY_JUBJUB.a)
    ensures IsPrime(T.BABY_JUBJUB.p) ==> T.BABY_JUBJUB.OnCurve(T.BASE8)
  {
    RootOfA();
    hide IsPrime, IsRoot;
    if IsPrime(T.BABY_JUBJUB.p) {
      BaseOnCurve();
    }
  }
}
