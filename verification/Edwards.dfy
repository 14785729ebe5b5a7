/**
 The twisted Edwards curve a*x^2 + y^2 = 1 + d*x^2*y^2 over the field of p elements.
 When p is an odd prime, a a nonzero square and d a non-square, its affine addition
 law is complete and makes the curve an abelian group with neutral element (0, 1).
 */
module Edwards {
  import opened Modular
  import opened Primes
  import opened EdwardsAlgebra

  predicate IsRoot(p: Modulus, s: int, n: int) {
    Cong(p, s * s, n)
  }

  datatype Curve = Curve(p: int, a: int, d: int) {
    ghost predicate Complete(): (b: bool)
      ensures b ==> IsPrime(p)
    {
      && IsPrime(p) && p != 2
      && !Zero(p, a)
      && (exists s :: IsRoot(p, s, a))
      && (forall s :: !IsRoot(p, s, d))
    }

    ghost predicate OnCurve(q: Point): (b: bool)
      ensures b ==> IsPrime(p) && 0 <= q.x < p && 0 <= q.y < p
    {
      && IsPrime(p)
      && 0 <= q.x < p && 0 <= q.y < p
      && Cong(p, a * q.x * q.x + q.y * q.y, 1 + d * q.x * q.x * q.y * q.y)
    }

    function At(q: Point): Coords {
      Coords(q.x, q.y, a * q.x)
    }

    /** d * x1 * y1 * x2 * y2 */
    function Tau(q: Point, r: Point): int {
      d * (At(q).W() * At(r).W())
    }

    /** The addition law as a formula over the field. */
    ghost function Sum(q: Point, r: Point): Point
      requires IsPrime(p)
    {
      Point((At(q).N(At(r)) * Inv(p, 1 + Tau(q, r))) % p, (At(q).M(At(r)) * Inv(p, 1 - Tau(q, r))) % p)
    }

    ghost function Neg(q: Point): Point
      requires IsPrime(p)
    {
      Point((-q.x) % p, q.y)
    }
  }

  datatype Point = Point(x: int, y: int)

  const NEUTRAL := Point(0, 1)

  lemma Fit(c: Curve, q: Point, r: Point)
    ensures c.At(q).Fits(c.At(r))
  {
    Regroup(c.a, q.x, r.x);
    Regroup(c.a, r.x, q.x);
  }

  lemma NormOnCurve(c: Curve, q: Point)
    requires c.OnCurve(q)
    ensures Cong(c.p, c.At(q).Norm(), 1 + c.d * (c.At(q).W() * c.At(q).W()))
  {
    assert c.d * q.x * q.x * q.y * q.y == c.d * ((q.x * q.y) * (q.x * q.y));
  }

  // ---------- completeness ----------

  lemma ScaledRoot(p: int, d: int, u: int, v: int) returns (s: int)
    requires IsPrime(p) && !Zero(p, v) && Cong(p, u * u, d * (v * v))
    ensures IsRoot(p, s, d)
  {
    var z := Inv(p, v);
    s := u * z;
    Scale(p, z * z, u * u, d * (v * v));
    Shuffle(u, z, u, z);
    CongMul(p, v * z, 1, v * z, 1);
    Scale(p, d, (v * z) * (v * z), 1);
    Shuffle(v, z, v, z);
    Regroup(d, v * v, z * z);
  }

  lemma SquareForm(p: int, s: int, a: int, x: int, y: int, e: int)
    requires IsPrime(p) && IsRoot(p, s, a) && (e == 1 || e == -1)
    ensures Cong(p, (s * x + e * y) * (s * x + e * y), (a * x) * x + y * y + e * (2 * (s * (x * y))))
  {
    Scale(p, x * x, s * s, a);
    Shuffle(s, x, s, x);
    Regroup(a, x, x);
    Regroup(s, x, y);
    assert (s * x + y) * (s * x + y) == (s * x) * (s * x) + y * y + 2 * ((s * x) * y);
    assert (s * x - y) * (s * x - y) == (s * x) * (s * x) + y * y - 2 * ((s * x) * y);
    CongAdd(p, (s * s) * (x * x), a * (x * x), y * y + e * (2 * (s * (x * y))), y * y + e * (2 * (s * (x * y))));
  }

  /** n(q) is congruent to d*w(q)^2*n(r) as soon as tau is a square root of 1. */
  lemma NormsProportional(c: Curve, q: Point, r: Point, e: int)
    requires c.OnCurve(q) && c.OnCurve(r) && (e == 1 || e == -1) && Cong(c.p, c.Tau(q, r), e)
    ensures Cong(c.p, c.At(q).Norm(), (c.d * (c.At(q).W() * c.At(q).W())) * c.At(r).Norm())
  {
    var d1, d2 := c.d * (c.At(q).W() * c.At(q).W()), c.d * (c.At(r).W() * c.At(r).W());
    NormOnCurve(c, q);
    NormOnCurve(c, r);
    SquareOfMixed(c.d, c.At(q).W(), c.At(r).W(), 0, 0, d1, d2, c.Tau(q, r));
    ProportionalStep(c.p, c.At(q).Norm(), c.At(r).Norm(), d1, d2, c.Tau(q, r), e);
  }

  lemma ProportionalStep(p: Modulus, n1: int, n2: int, d1: int, d2: int, t: int, e: int)
    requires Cong(p, n1, 1 + d1) && Cong(p, n2, 1 + d2) && t * t == d1 * d2 && Cong(p, t, e) && e * e == 1
    ensures Cong(p, n1, d1 * n2)
  {
    CongMul(p, t, e, t, e);
    Scale(p, d1, n2, 1 + d2);
    Distribute(d1, 1, d2);
    CongAdd(p, d1, d1, t * t, 1);
  }

  /** If tau were +1 or -1, then d*v^2 would be a square for both choices of v. */
  lemma ForcedSquare(c: Curve, q: Point, r: Point, s: int, e: int, sign: int)
    requires c.OnCurve(q) && c.OnCurve(r) && IsRoot(c.p, s, c.a)
    requires (e == 1 || e == -1) && (sign == 1 || sign == -1) && Cong(c.p, c.Tau(q, r), e)
    ensures var u, v := s * q.x + (sign * e) * q.y, (q.x * q.y) * (s * r.x + sign * r.y);
            Cong(c.p, u * u, c.d * (v * v))
  {
    var p, w, w', d1 := c.p, q.x * q.y, r.x * r.y, c.d * ((q.x * q.y) * (q.x * q.y));
    var f := s * r.x + sign * r.y;
    SquareForm(p, s, c.a, q.x, q.y, sign * e);
    SquareForm(p, s, c.a, r.x, r.y, sign);
    NormsProportional(c, q, r, e);
    // the mixed terms agree because d*w^2*w' = w*tau
    var n := c.At(r).Norm();
    Scale(p, d1, f * f, n + sign * (2 * (s * w')));
    Shuffle(w, f, w, f);
    Regroup(c.d, w * w, f * f);
    Distribute(d1, n, sign * (2 * (s * w')));
    MixedTerm(c.d, w, w', s, sign);
    Scale(p, sign * (2 * (s * w)), c.Tau(q, r), e);
    assert (sign * (2 * (s * w))) * e == (sign * e) * (2 * (s * w));
    CongAdd(p, c.At(q).Norm(), d1 * n, (sign * e) * (2 * (s * w)), d1 * (sign * (2 * (s * w'))));
  }

  lemma MixedTerm(d: int, w: int, w': int, s: int, sign: int)
    requires sign == 1 || sign == -1
    ensures (d * (w * w)) * (sign * (2 * (s * w'))) == (sign * (2 * (s * w))) * (d * (w * w'))
  {
    assert (d * (w * w)) * (s * w') == (s * w) * (d * (w * w'));
  }

  /** Both denominators of the addition law are nonzero on the curve. */
  lemma Denominators(c: Curve, q: Point, r: Point)
    requires c.Complete() && c.OnCurve(q) && c.OnCurve(r)
    ensures !Zero(c.p, 1 + c.Tau(q, r)) && !Zero(c.p, 1 - c.Tau(q, r))
  {
    NotUnit(c, q, r, 1);
    NotUnit(c, q, r, -1);
    DifferenceZero(c.p, 1, c.Tau(q, r));
    DifferenceZero(c.p, c.Tau(q, r), -1);
  }

  lemma NotUnit(c: Curve, q: Point, r: Point, e: int)
    requires c.Complete() && c.OnCurve(q) && c.OnCurve(r) && (e == 1 || e == -1)
    ensures !Cong(c.p, c.Tau(q, r), e)
  {
    if Cong(c.p, c.Tau(q, r), e) {
      var s :| IsRoot(c.p, s, c.a);
      FactorVanishes(c, q, r, s, e, 1);
      FactorVanishes(c, q, r, s, e, -1);
      BothZero(c.p, s * r.x, r.y);
      TauZero(c, q, r, e);
    }
  }

  lemma BothZero(p: int, a: int, b: int)
    requires IsPrime(p) && p != 2 && Zero(p, a + 1 * b) && Zero(p, a + -1 * b)
    ensures Zero(p, b)
  {
    Small(p, 0);
    Small(p, 2);
    CongAdd(p, a + b, 0, a - b, 0);
    ZeroProduct(p, 2, b);
  }

  lemma FactorVanishes(c: Curve, q: Point, r: Point, s: int, e: int, sign: int)
    requires c.Complete() && c.OnCurve(q) && c.OnCurve(r) && IsRoot(c.p, s, c.a)
    requires (e == 1 || e == -1) && (sign == 1 || sign == -1) && Cong(c.p, c.Tau(q, r), e)
    ensures Zero(c.p, s * r.x + sign * r.y)
  {
    var u, v := s * q.x + (sign * e) * q.y, (q.x * q.y) * (s * r.x + sign * r.y);
    ForcedSquare(c, q, r, s, e, sign);
    if !Zero(c.p, v) {
      var root := ScaledRoot(c.p, c.d, u, v);
    }
    TauZero(c, q, r, e);
    ZeroProduct(c.p, q.x * q.y, s * r.x + sign * r.y);
  }

  lemma TauZero(c: Curve, q: Point, r: Point, e: int)
    requires IsPrime(c.p) && (e == 1 || e == -1) && Cong(c.p, c.Tau(q, r), e)
    ensures !Zero(c.p, q.x * q.y) && !Zero(c.p, r.y)
  {
    var p := c.p;
    Small(p, 0);
    Small(p, 1);
    DifferenceZero(p, e, 0);
    MultipleAdds(p, -1, 1);
    Small(p, p - 1);
    ZeroProduct(p, c.d, c.At(q).W() * c.At(r).W());
    ZeroProduct(p, q.x * q.y, r.x * r.y);
    ZeroProduct(p, r.x, r.y);
  }

  // ---------- the sum as a pair of fractions ----------

  lemma Quotient(p: int, n: int, v: int)
    requires IsPrime(p) && !Zero(p, v)
    ensures var z := (n * Inv(p, v)) % p; 0 <= z < p && Cong(p, z * v, n)
  {
    var i := Inv(p, v);
    Reduce(p, n * i);
    Scale(p, v, (n * i) % p, n * i);
    Scale(p, n, v * i, 1);
    Regroup(n, v, i);
    assert v * (n * i) == n * (v * i) && n * 1 == n;
  }

  lemma QuotientIs(p: int, n: int, v: int, z: int)
    requires IsPrime(p) && !Zero(p, v) && 0 <= z < p && Cong(p, z * v, n)
    ensures z == (n * Inv(p, v)) % p
  {
    var z' := (n * Inv(p, v)) % p;
    Quotient(p, n, v);
    assert z * v == v * z && z' * v == v * z';
    Cancel(p, v, z, z');
    Small(p, z);
    Small(p, z');
  }

  lemma SumFractions(c: Curve, q: Point, r: Point)
    requires c.Complete() && c.OnCurve(q) && c.OnCurve(r)
    ensures var s := c.Sum(q, r);
            && 0 <= s.x < c.p && 0 <= s.y < c.p
            && !Zero(c.p, 1 + c.Tau(q, r)) && !Zero(c.p, 1 - c.Tau(q, r))
            && Cong(c.p, s.x * (1 + c.Tau(q, r)), c.At(q).N(c.At(r)))
            && Cong(c.p, s.y * (1 - c.Tau(q, r)), c.At(q).M(c.At(r)))
  {
    Denominators(c, q, r);
    Quotient(c.p, c.At(q).N(c.At(r)), 1 + c.Tau(q, r));
    Quotient(c.p, c.At(q).M(c.At(r)), 1 - c.Tau(q, r));
  }

  lemma SumCommutes(c: Curve, q: Point, r: Point)
    requires IsPrime(c.p)
    ensures c.Sum(q, r) == c.Sum(r, q)
  {
    Fit(c, q, r);
    assert c.At(q).W() * c.At(r).W() == c.At(r).W() * c.At(q).W();
    NumeratorsCommute(c.At(q), c.At(r));
  }

  lemma NumeratorsCommute(q: Coords, r: Coords)
    requires q.Fits(r)
    ensures q.N(r) == r.N(q) && q.M(r) == r.M(q)
  {
  }

  // ---------- closure ----------

  /** A pair of fractions whose numerators satisfy the cleared equation is a point of the curve. */
  lemma CurveFromFractions(p: int, a: int, d: int, x: int, y: int, n: int, m: int, e: int, f: int)
    requires IsPrime(p) && !Zero(p, e) && !Zero(p, f)
    requires Cong(p, x * e, n) && Cong(p, y * f, m)
    requires Cong(p, (a * (n * n)) * (f * f) + (m * m) * (e * e), (e * f) * (e * f) + d * ((n * m) * (n * m)))
    ensures Cong(p, a * (x * x) + y * y, 1 + d * ((x * y) * (x * y)))
  {
    var g := (e * f) * (e * f);
    ZeroProduct(p, e, f);
    ZeroProduct(p, e * f, e * f);
    // left-hand side times g
    CongMul(p, x * e, n, x * e, n);
    Scale(p, a, (x * e) * (x * e), n * n);
    Scale(p, f * f, a * ((x * e) * (x * e)), a * (n * n));
    CongMul(p, y * f, m, y * f, m);
    Scale(p, e * e, (y * f) * (y * f), m * m);
    CongAdd(p, (a * ((x * e) * (x * e))) * (f * f), (a * (n * n)) * (f * f), ((y * f) * (y * f)) * (e * e),
            (m * m) * (e * e));
    ClearedLeft(a, x, y, e, f);
    // right-hand side times g
    CongMul(p, x * e, n, y * f, m);
    CongMul(p, (x * e) * (y * f), n * m, (x * e) * (y * f), n * m);
    Scale(p, d, ((x * e) * (y * f)) * ((x * e) * (y * f)), (n * m) * (n * m));
    CongAdd(p, g, g, d * (((x * e) * (y * f)) * ((x * e) * (y * f))), d * ((n * m) * (n * m)));
    ClearedRight(d, x, y, e, f);
    Cancel(p, g, a * (x * x) + y * y, 1 + d * ((x * y) * (x * y)));
  }

  lemma ClearedLeft(a: int, x: int, y: int, e: int, f: int)
    ensures ((e * f) * (e * f)) * (a * (x * x) + y * y)
         == (a * ((x * e) * (x * e))) * (f * f) + ((y * f) * (y * f)) * (e * e)
  {
    Shuffle(e, f, e, f);
    Shuffle(x, e, x, e);
    Shuffle(y, f, y, f);
    ClearedLeftTerms(a, x * x, y * y, e * e, f * f);
  }

  lemma ClearedLeftTerms(a: int, x: int, y: int, e: int, f: int)
    ensures (e * f) * (a * x + y) == (a * (x * e)) * f + (y * f) * e
  {
  }

  lemma ClearedRight(d: int, x: int, y: int, e: int, f: int)
    ensures ((e * f) * (e * f)) * (1 + d * ((x * y) * (x * y)))
         == (e * f) * (e * f) + d * (((x * e) * (y * f)) * ((x * e) * (y * f)))
  {
    Shuffle(x, e, y, f);
    Shuffle(x * y, e * f, x * y, e * f);
    ClearedRightTerms(d, (x * y) * (x * y), (e * f) * (e * f));
  }

  lemma ClearedRightTerms(d: int, v: int, g: int)
    ensures g * (1 + d * v) == g + d * (v * g)
  {
  }

  lemma ClosureCleared(c: Curve, q: Point, r: Point)
    requires c.OnCurve(q) && c.OnCurve(r)
    ensures var (n, m, t) := (c.At(q).N(c.At(r)), c.At(q).M(c.At(r)), c.Tau(q, r));
            Cong(c.p, (c.a * (n * n)) * ((1 - t) * (1 - t)) + (m * m) * ((1 + t) * (1 + t)),
                      ((1 + t) * (1 - t)) * ((1 + t) * (1 - t)) + c.d * ((n * m) * (n * m)))
  {
    var p, n, m, t, o := c.p, c.At(q).N(c.At(r)), c.At(q).M(c.At(r)), c.Tau(q, r), c.At(q).O(c.At(r));
    var d1, d2 := c.d * (c.At(q).W() * c.At(q).W()), c.d * (c.At(r).W() * c.At(r).W());
    var n1, n2 := c.At(q).Norm(), c.At(r).Norm();
    Fit(c, q, r);
    ClosureIdentity(c.At(q), c.At(r), c.d, t, d1, d2);
    ThirdNumerator(c.a, q.x, q.y, r.x, r.y);
    Regroup(c.a, n, n);
    NormOnCurve(c, q);
    NormOnCurve(c, r);
    SquareOfMixed(c.d, c.At(q).W(), c.At(r).W(), 0, 0, d1, d2, t);
    SumOfSquares(0, 0, t);
    ClosureMod(p, n1, n2, d1, d2);
    var l, h := (o * n) * ((1 - t) * (1 - t)) + (m * m) * ((1 + t) * (1 + t)), c.d * ((n * m) * (n * m));
    CongAdd(p, l - h, (1 - d1 * d2) * (1 - d1 * d2), h, h);
  }

  lemma ThirdNumerator(a: int, x: int, y: int, x': int, y': int)
    ensures (a * x) * y' + y * (a * x') == a * (x * y' + y * x')
  {
  }

  lemma ClosureMod(p: Modulus, n1: int, n2: int, d1: int, d2: int)
    requires Cong(p, n1, 1 + d1) && Cong(p, n2, 1 + d2)
    ensures Cong(p, (n1 * n2) * (1 + d1 * d2) - d1 * (n2 * n2) - d2 * (n1 * n1), (1 - d1 * d2) * (1 - d1 * d2))
  {
    var m1, m2 := 1 + d1, 1 + d2;
    CongMul(p, n1, m1, n2, m2);
    Scale(p, 1 + d1 * d2, n1 * n2, m1 * m2);
    CongMul(p, n2, m2, n2, m2);
    Scale(p, d1, n2 * n2, m2 * m2);
    CongMul(p, n1, m1, n1, m1);
    Scale(p, d2, n1 * n1, m1 * m1);
    CongAdd(p, (n1 * n2) * (1 + d1 * d2), (m1 * m2) * (1 + d1 * d2), d1 * (n2 * n2), d1 * (m2 * m2));
    CongAdd(p, (n1 * n2) * (1 + d1 * d2) - d1 * (n2 * n2), (m1 * m2) * (1 + d1 * d2) - d1 * (m2 * m2), d2 * (n1 * n1),
            d2 * (m1 * m1));
    ClosureAtNorms(d1, d2);
  }

  lemma SumOnCurve(c: Curve, q: Point, r: Point)
    requires c.Complete() && c.OnCurve(q) && c.OnCurve(r)
    ensures c.OnCurve(c.Sum(q, r))
  {
    hide Curve.Sum, Curve.OnCurve, Curve.Complete, Curve.Tau, Curve.At, Coords.N, Coords.M, Zero, Cong, IsPrime;
    var s, n, m, t := c.Sum(q, r), c.At(q).N(c.At(r)), c.At(q).M(c.At(r)), c.Tau(q, r);
    SumFractions(c, q, r);
    ClosureCleared(c, q, r);
    CurveFromFractions(c.p, c.a, c.d, s.x, s.y, n, m, 1 + t, 1 - t);
    SatisfiesCurve(c, s);
  }

  lemma SatisfiesCurve(c: Curve, s: Point)
    requires IsPrime(c.p) && 0 <= s.x < c.p && 0 <= s.y < c.p
    requires Cong(c.p, c.a * (s.x * s.x) + s.y * s.y, 1 + c.d * ((s.x * s.y) * (s.x * s.y)))
    ensures c.OnCurve(s)
  {
    hide Cong, IsPrime;
    CurveEquation(c, s);
  }

  lemma CurveEquation(c: Curve, s: Point)
    ensures c.a * s.x * s.x + s.y * s.y == c.a * (s.x * s.x) + s.y * s.y
    ensures 1 + c.d * s.x * s.x * s.y * s.y == 1 + c.d * ((s.x * s.y) * (s.x * s.y))
  {
    Regroup(c.a, s.x, s.x);
    Shuffle(s.x, s.y, s.x, s.y);
    assert c.d * s.x * s.x * s.y * s.y == c.d * ((s.x * s.x) * (s.y * s.y));
  }

  // ---------- neutral element and inverses ----------

  lemma NeutralOnCurve(c: Curve)
    requires IsPrime(c.p)
    ensures c.OnCurve(NEUTRAL)
  {
    assert c.a * 0 * 0 == 0 && c.d * 0 * 0 * 1 * 1 == 0;
  }

  lemma SumNeutral(c: Curve, q: Point)
    requires c.Complete() && c.OnCurve(q)
    ensures c.Sum(NEUTRAL, q) == q && c.Sum(q, NEUTRAL) == q
  {
    var t := c.Tau(NEUTRAL, q);
    assert c.At(NEUTRAL).W() == 0 && c.a * 0 == 0;
    assert 0 * c.At(q).W() == 0 && c.d * 0 == 0;
    Small(c.p, 1);
    assert q.x * 1 == q.x && q.y * 1 == q.y;
    assert c.At(NEUTRAL).N(c.At(q)) == q.x && c.At(NEUTRAL).M(c.At(q)) == q.y;
    QuotientIs(c.p, q.x, 1 + t, q.x);
    QuotientIs(c.p, q.y, 1 - t, q.y);
    SumCommutes(c, NEUTRAL, q);
  }

  lemma NegOnCurve(c: Curve, q: Point)
    requires c.OnCurve(q)
    ensures c.OnCurve(c.Neg(q))
  {
    var p, x, y := c.p, (-q.x) % c.p, q.y;
    Reduce(p, -q.x);
    CongMul(p, x, -q.x, x, -q.x);
    assert (-q.x) * (-q.x) == q.x * q.x;
    Scale(p, c.a, x * x, q.x * q.x);
    CongAdd(p, c.a * (x * x), c.a * (q.x * q.x), y * y, y * y);
    Scale(p, y * y, x * x, q.x * q.x);
    Scale(p, c.d, (x * x) * (y * y), (q.x * q.x) * (y * y));
    CongAdd(p, 1, 1, c.d * ((x * x) * (y * y)), c.d * ((q.x * q.x) * (y * y)));
    CurveEquation(c, q);
    CurveEquation(c, c.Neg(q));
    Shuffle(x, y, x, y);
    Shuffle(q.x, y, q.x, y);
  }

  lemma SumInverse(c: Curve, q: Point)
    requires c.Complete() && c.OnCurve(q)
    ensures c.Sum(q, c.Neg(q)) == NEUTRAL
  {
    var p, r := c.p, c.Neg(q);
    NegOnCurve(c, q);
    Denominators(c, q, r);
    Reduce(p, -q.x);
    Small(p, 0);
    // x: the numerator q.x*q.y + q.y*(-q.x) is zero
    Scale(p, q.y, r.x, -q.x);
    Distribute(q.y, 0, q.x);
    CongAdd(p, q.x * q.y, q.x * q.y, q.y * r.x, q.y * (-q.x));
    QuotientIs(p, c.At(q).N(c.At(r)), 1 + c.Tau(q, r), 0);
    // y: numerator and denominator are both 1 + d*w^2
    InverseOrdinate(c, q);
    QuotientIs(p, c.At(q).M(c.At(r)), 1 - c.Tau(q, r), 1);
  }

  lemma InverseOrdinate(c: Curve, q: Point)
    requires c.OnCurve(q)
    ensures Cong(c.p, 1 * (1 - c.Tau(q, c.Neg(q))), c.At(q).M(c.At(c.Neg(q))))
  {
    var p, x := c.p, (-q.x) % c.p;
    Reduce(p, -q.x);
    NormOnCurve(c, q);
    OppositeM(p, c.a * q.x, q.y, q.x, x);
    OppositeTau(p, c.d, q.x, q.y, x);
    CongAdd(p, 1, 1, c.Tau(q, c.Neg(q)), -(c.d * ((q.x * q.y) * (q.x * q.y))));
  }

  lemma OppositeM(p: Modulus, z: int, y: int, x: int, x': int)
    requires Cong(p, x', -x)
    ensures Cong(p, y * y - z * x', y * y + z * x)
  {
    Scale(p, z, x', -x);
    assert z * (-x) == -(z * x);
    CongAdd(p, y * y, y * y, z * x', -(z * x));
  }

  lemma OppositeTau(p: Modulus, d: int, x: int, y: int, x': int)
    requires Cong(p, x', -x)
    ensures Cong(p, d * ((x * y) * (x' * y)), -(d * ((x * y) * (x * y))))
  {
    hide Cong;
    Scale(p, y, x', -x);
    Scale(p, x * y, x' * y, (-x) * y);
    Scale(p, d, (x * y) * (x' * y), (x * y) * ((-x) * y));
    OppositeSign(d, x, y);
  }

  lemma OppositeSign(d: int, x: int, y: int)
    ensures d * ((x * y) * ((-x) * y)) == -(d * ((x * y) * (x * y)))
  {
    var w := x * y;
    assert (-x) * y == -w;
    assert w * (-w) == -(w * w);
    assert d * (-(w * w)) == -(d * (w * w));
  }

  // ---------- associativity ----------

  /** (q + r) + t as a pair of fractions over the coordinates of the three points. */
  lemma TripleFractions(c: Curve, q: Point, r: Point, t: Point)
    requires c.Complete() && c.OnCurve(q) && c.OnCurve(r) && c.OnCurve(t)
    ensures var (n, m, v, s) := (c.At(q).N(c.At(r)), c.At(q).M(c.At(r)), c.Tau(q, r), c.Sum(c.Sum(q, r), t));
            && c.OnCurve(s)
            && !Zero(c.p, 1 - v * v + c.d * ((n * m) * c.At(t).W()))
            && !Zero(c.p, 1 - v * v + c.d * ((-(n * m)) * c.At(t).W()))
            && Cong(c.p, s.x * (1 - v * v + c.d * ((n * m) * c.At(t).W())),
                         (n * t.y + m * t.x) + v * (m * t.x - n * t.y))
            && Cong(c.p, s.y * (1 - v * v + c.d * ((-(n * m)) * c.At(t).W())),
                         (m * t.y - n * (c.a * t.x)) + v * (m * t.y + n * (c.a * t.x)))
  {
    hide Curve.Sum, Curve.OnCurve, Curve.Complete, Zero, Cong, IsPrime;
    var s := c.Sum(q, r);
    SumFractions(c, q, r);
    SumOnCurve(c, q, r);
    SumFractions(c, s, t);
    SumOnCurve(c, s, t);
    Fit(c, s, t);
    TripleStep(c.p, c.d, s.x, s.y, c.At(q).N(c.At(r)), c.At(q).M(c.At(r)), c.Tau(q, r), t.x, t.y, c.a * t.x,
               c.Sum(s, t).x, c.Sum(s, t).y);
  }

  lemma TripleStep(p: int, d: int, x: int, y: int, n: int, m: int, v: int, x3: int, y3: int, z3: int, x': int, y': int)
    requires IsPrime(p) && !Zero(p, 1 + v) && !Zero(p, 1 - v)
    requires Cong(p, x * (1 + v), n) && Cong(p, y * (1 - v), m)
    requires var u := d * ((x * y) * (x3 * y3));
             && !Zero(p, 1 + u) && !Zero(p, 1 - u)
             && Cong(p, x' * (1 + u), x * y3 + y * x3) && Cong(p, y' * (1 - u), y * y3 - x * z3)
    ensures var (e, f) := (1 - v * v + d * ((n * m) * (x3 * y3)), 1 - v * v + d * ((-(n * m)) * (x3 * y3)));
            && !Zero(p, e) && !Zero(p, f)
            && Cong(p, x' * e, (n * y3 + m * x3) + v * (m * x3 - n * y3))
            && Cong(p, y' * f, (m * y3 - n * z3) + v * (m * y3 + n * z3))
  {
    var u, g, w := d * ((x * y) * (x3 * y3)), (1 + v) * (1 - v), x3 * y3;
    ClearDenominator(p, x, y, n, m, v, d, w);
    ClearNumerators(p, x, y, n, m, v, x3, y3, z3);
    ZeroProduct(p, 1 + v, 1 - v);
    ClearFraction(p, g, x', 1 + u, x * y3 + y * x3, 1 - v * v + d * ((n * m) * w),
                  (n * y3 + m * x3) + v * (m * x3 - n * y3));
    ClearFraction(p, g, y', 1 - u, y * y3 - x * z3, 1 - v * v + d * ((-(n * m)) * w),
                  (m * y3 - n * z3) + v * (m * y3 + n * z3));
  }

  /** Multiplying numerator and denominator of a fraction by the same nonzero g. */
  lemma ClearFraction(p: int, g: int, x: int, e: int, n: int, e': int, n': int)
    requires IsPrime(p) && !Zero(p, g) && !Zero(p, e) && Cong(p, x * e, n)
    requires Cong(p, g * e, e') && Cong(p, g * n, n')
    ensures !Zero(p, e') && Cong(p, x * e', n')
  {
    ZeroProduct(p, g, e);
    Small(p, 0);
    Scale(p, g, x * e, n);
    Scale(p, x, g * e, e');
    assert g * (x * e) == x * (g * e);
  }

  lemma ClearDenominator(p: Modulus, x: int, y: int, n: int, m: int, v: int, d: int, w: int)
    requires Cong(p, x * (1 + v), n) && Cong(p, y * (1 - v), m)
    ensures Cong(p, ((1 + v) * (1 - v)) * (1 + d * ((x * y) * w)), 1 - v * v + d * ((n * m) * w))
    ensures Cong(p, ((1 + v) * (1 - v)) * (1 - d * ((x * y) * w)), 1 - v * v + d * ((-(n * m)) * w))
  {
    var g, e := (1 + v) * (1 - v), d * ((x * y) * w);
    CongMul(p, x * (1 + v), n, y * (1 - v), m);
    Shuffle(x, 1 + v, y, 1 - v);
    Scale(p, w, (x * y) * g, n * m);
    Scale(p, d, ((x * y) * g) * w, (n * m) * w);
    MoveFactor(d, x * y, g, w);
    Distribute(g, 1, e);
    assert g == 1 - v * v;
    assert (-(n * m)) * w == -((n * m) * w);
    assert d * (-((n * m) * w)) == -(d * ((n * m) * w));
    CongAdd(p, g, g, g * e, d * ((n * m) * w));
  }

  lemma MoveFactor(d: int, v: int, g: int, w: int)
    ensures d * ((v * g) * w) == g * (d * (v * w))
  {
    Regroup(v, g, w);
  }

  lemma ClearNumerators(p: Modulus, x: int, y: int, n: int, m: int, v: int, x3: int, y3: int, z3: int)
    requires Cong(p, x * (1 + v), n) && Cong(p, y * (1 - v), m)
    ensures Cong(p, ((1 + v) * (1 - v)) * (x * y3 + y * x3), (n * y3 + m * x3) + v * (m * x3 - n * y3))
    ensures Cong(p, ((1 + v) * (1 - v)) * (y * y3 - x * z3), (m * y3 - n * z3) + v * (m * y3 + n * z3))
  {
    ClearTerm(p, x, y3, n, v, 1 - v);
    ClearTerm(p, x, z3, n, v, 1 - v);
    ClearTermMinus(p, y, x3, m, v);
    ClearTermMinus(p, y, y3, m, v);
    var g := (1 + v) * (1 - v);
    CongAdd(p, g * (x * y3), (n * y3) * (1 - v), g * (y * x3), (m * x3) * (1 + v));
    CongAdd(p, g * (y * y3), (m * y3) * (1 + v), g * (x * z3), (n * z3) * (1 - v));
    Distribute(g, x * y3, y * x3);
    Distribute(g, y * y3, x * z3);
    TwistedSum(n * y3, m * x3, v);
    TwistedSum(n * z3, m * y3, v);
  }

  lemma TwistedSum(a: int, b: int, v: int)
    ensures a * (1 - v) + b * (1 + v) == (a + b) + v * (b - a)
    ensures b * (1 + v) - a * (1 - v) == (b - a) + v * (b + a)
  {
  }

  lemma ClearTerm(p: Modulus, x: int, y: int, n: int, v: int, f: int)
    requires Cong(p, x * (1 + v), n)
    ensures Cong(p, ((1 + v) * f) * (x * y), (n * y) * f)
  {
    Scale(p, y * f, x * (1 + v), n);
    Shuffle(1 + v, f, x, y);
    Shuffle(x, 1 + v, y, f);
    assert (x * (1 + v)) * (y * f) == ((1 + v) * f) * (x * y);
    assert n * (y * f) == (n * y) * f;
  }

  lemma ClearTermMinus(p: Modulus, y: int, x: int, m: int, v: int)
    requires Cong(p, y * (1 - v), m)
    ensures Cong(p, ((1 + v) * (1 - v)) * (y * x), (m * x) * (1 + v))
  {
    ClearTerm(p, y, x, m, -v, 1 + v);
    assert (1 + -v) * (1 + v) == (1 + v) * (1 - v);
  }

  /** Replacing d*w^2 by n - 1 in the bracket of EdwardsAlgebra.CommonFactor. */
  lemma BracketMod(p: Modulus, s: int, u: int, u': int, w1: int, w2: int, w3: int, q1: int, q3: int, m: int, m': int,
                   d1: int, d2: int, d3: int, c1: int, c2: int, c3: int)
    requires Cong(p, d1, c1) && Cong(p, d2, c2) && Cong(p, d3, c3)
    ensures Cong(p, s * (w2 * (d1 - d3) + w1 * q3 - w3 * q1)
                    + u * (w1 - w1 * (d2 * d3) + d1 * m') - u' * (w3 - w3 * (d1 * d2) + d3 * m),
                    s * (w2 * (c1 - c3) + w1 * q3 - w3 * q1)
                    + u * (w1 - w1 * (c2 * c3) + c1 * m') - u' * (w3 - w3 * (c1 * c2) + c3 * m))
  {
    var h := w1 * q3 - w3 * q1;
    CongAdd(p, d1, c1, d3, c3);
    Scale(p, w2, d1 - d3, c1 - c3);
    CongAdd(p, w2 * (d1 - d3), w2 * (c1 - c3), h, h);
    Scale(p, s, w2 * (d1 - d3) + h, w2 * (c1 - c3) + h);
    BracketTerm(p, u, w1, m', d2, d3, d1, c2, c3, c1);
    BracketTerm(p, u', w3, m, d1, d2, d3, c1, c2, c3);
    CongAdd(p, s * (w2 * (d1 - d3) + h), s * (w2 * (c1 - c3) + h),
            u * (w1 - w1 * (d2 * d3) + d1 * m'), u * (w1 - w1 * (c2 * c3) + c1 * m'));
    CongAdd(p, s * (w2 * (d1 - d3) + h) + u * (w1 - w1 * (d2 * d3) + d1 * m'),
            s * (w2 * (c1 - c3) + h) + u * (w1 - w1 * (c2 * c3) + c1 * m'),
            u' * (w3 - w3 * (d1 * d2) + d3 * m), u' * (w3 - w3 * (c1 * c2) + c3 * m));
  }

  lemma BracketTerm(p: Modulus, u: int, w: int, m: int, d: int, d': int, e: int, c: int, c': int, b: int)
    requires Cong(p, d, c) && Cong(p, d', c') && Cong(p, e, b)
    ensures Cong(p, u * (w - w * (d * d') + e * m), u * (w - w * (c * c') + b * m))
  {
    CongMul(p, d, c, d', c');
    Scale(p, w, d * d', c * c');
    Scale(p, m, e, b);
    CongAdd(p, w, w, w * (d * d'), w * (c * c'));
    CongAdd(p, w - w * (d * d'), w - w * (c * c'), e * m, b * m);
    Scale(p, u, w - w * (d * d') + e * m, w - w * (c * c') + b * m);
  }

  /** Two fractions are equal once they agree after cross-multiplication. */
  lemma CrossEqual(p: int, x: int, e: int, n: int, x': int, e': int, n': int)
    requires IsPrime(p) && !Zero(p, e) && !Zero(p, e') && 0 <= x < p && 0 <= x' < p
    requires Cong(p, x * e, n) && Cong(p, x' * e', n') && Zero(p, n * e' - n' * e)
    ensures x == x'
  {
    Scale(p, e', x * e, n);
    Scale(p, e, x' * e', n');
    DifferenceZero(p, n * e', n' * e);
    ZeroProduct(p, e, e');
    assert (e * e') * x == (x * e) * e' && (e * e') * x' == (x' * e') * e;
    Cancel(p, e * e', x, x');
    Small(p, x);
    Small(p, x');
  }

  /** Cross-multiplied, the two bracketings agree modulo p. */
  lemma CrossZero(p: Modulus, d: int, s: int, u: int, u': int, w1: int, w2: int, w3: int, q1: int, q2: int, q3: int,
                  m: int, m': int, n1: int, n2: int, n3: int)
    requires m == w1 * q2 + w2 * q1 && m' == w2 * q3 + w3 * q2
    requires Cong(p, n1, 1 + d * (w1 * w1)) && Cong(p, n2, 1 + d * (w2 * w2)) && Cong(p, n3, 1 + d * (w3 * w3))
    requires s * (w2 * ((n1 - 1) - (n3 - 1)) + w1 * q3 - w3 * q1)
             + u * (w1 - w1 * ((n2 - 1) * (n3 - 1)) + (n1 - 1) * m')
             - u' * (w3 - w3 * ((n1 - 1) * (n2 - 1)) + (n3 - 1) * m) == 0
    ensures var (v, v') := (d * (w1 * w2), d * (w3 * w2));
            Zero(p, (s + v * u) * (1 - v' * v' + d * (m' * w1)) - (s + v' * u') * (1 - v * v + d * (m * w3)))
  {
    var g, d1, d2, d3 := d * w2, d * (w1 * w1), d * (w2 * w2), d * (w3 * w3);
    CommonFactor(s, u, u', d, w1, w2, w3, q1, q2, q3, m, m', g, d1, d2, d3);
    CongAdd(p, n1, 1 + d1, 1, 1);
    CongAdd(p, n2, 1 + d2, 1, 1);
    CongAdd(p, n3, 1 + d3, 1, 1);
    BracketMod(p, s, u, u', w1, w2, w3, q1, q3, m, m', d1, d2, d3, n1 - 1, n2 - 1, n3 - 1);
    var b := s * (w2 * (d1 - d3) + w1 * q3 - w3 * q1)
             + u * (w1 - w1 * (d2 * d3) + d1 * m') - u' * (w3 - w3 * (d1 * d2) + d3 * m);
    Scale(p, g, b, 0);
    Small(p, 0);
    MoveOut(d, w1, w2);
    MoveOut(d, w3, w2);
  }

  lemma MoveOut(d: int, w: int, w': int)
    ensures d * (w * w') == (d * w') * w
  {
  }

  lemma SumAssociative(c: Curve, q: Point, r: Point, t: Point)
    requires c.Complete() && c.OnCurve(q) && c.OnCurve(r) && c.OnCurve(t)
    ensures c.Sum(c.Sum(q, r), t) == c.Sum(q, c.Sum(r, t))
  {
    SumOnCurve(c, r, t);
    SumCommutes(c, r, t);
    SumCommutes(c, c.Sum(r, t), q);
    MirrorX(c, q, r, t);
    MirrorY(c, q, r, t);
  }

  lemma MirrorX(c: Curve, q: Point, r: Point, t: Point)
    requires c.Complete() && c.OnCurve(q) && c.OnCurve(r) && c.OnCurve(t)
    ensures c.Sum(c.Sum(q, r), t).x == c.Sum(c.Sum(t, r), q).x
  {
    hide Curve.Sum, Curve.OnCurve, Curve.Complete, Curve.Tau, Curve.At, Coords.N, Coords.M, Coords.W, Zero, Cong,
         IsPrime;
    TripleFractions(c, q, r, t);
    TripleFractions(c, t, r, q);
    CrossX(c, q, r, t);
    var v, v' := c.Tau(q, r), c.Tau(t, r);
    var n, m, n', m' := c.At(q).N(c.At(r)), c.At(q).M(c.At(r)), c.At(t).N(c.At(r)), c.At(t).M(c.At(r));
    CrossEqual(c.p, c.Sum(c.Sum(q, r), t).x, 1 - v * v + c.d * ((n * m) * c.At(t).W()),
               (n * t.y + m * t.x) + v * (m * t.x - n * t.y),
               c.Sum(c.Sum(t, r), q).x, 1 - v' * v' + c.d * ((n' * m') * c.At(q).W()),
               (n' * q.y + m' * q.x) + v' * (m' * q.x - n' * q.y));
  }

  lemma MirrorY(c: Curve, q: Point, r: Point, t: Point)
    requires c.Complete() && c.OnCurve(q) && c.OnCurve(r) && c.OnCurve(t)
    ensures c.Sum(c.Sum(q, r), t).y == c.Sum(c.Sum(t, r), q).y
  {
    hide Curve.Sum, Curve.OnCurve, Curve.Complete, Curve.Tau, Curve.At, Coords.N, Coords.M, Coords.W, Zero, Cong,
         IsPrime;
    TripleFractions(c, q, r, t);
    TripleFractions(c, t, r, q);
    CrossY(c, q, r, t);
    var v, v', z, z' := c.Tau(q, r), c.Tau(t, r), c.a * t.x, c.a * q.x;
    var n, m, n', m' := c.At(q).N(c.At(r)), c.At(q).M(c.At(r)), c.At(t).N(c.At(r)), c.At(t).M(c.At(r));
    CrossEqual(c.p, c.Sum(c.Sum(q, r), t).y, 1 - v * v + c.d * ((-(n * m)) * c.At(t).W()),
               (m * t.y - n * z) + v * (m * t.y + n * z),
               c.Sum(c.Sum(t, r), q).y, 1 - v' * v' + c.d * ((-(n' * m')) * c.At(q).W()),
               (m' * q.y - n' * z') + v' * (m' * q.y + n' * z'));
  }

  lemma CrossX(c: Curve, q: Point, r: Point, t: Point)
    requires c.OnCurve(q) && c.OnCurve(r) && c.OnCurve(t)
    ensures var (n, m, n', m') := (c.At(q).N(c.At(r)), c.At(q).M(c.At(r)), c.At(t).N(c.At(r)), c.At(t).M(c.At(r)));
            var (v, v') := (c.Tau(q, r), c.Tau(t, r));
            Zero(c.p, ((n * t.y + m * t.x) + v * (m * t.x - n * t.y)) * (1 - v' * v' + c.d * ((n' * m') * c.At(q).W()))
                      - ((n' * q.y + m' * q.x) + v' * (m' * q.x - n' * q.y))
                        * (1 - v * v + c.d * ((n * m) * c.At(t).W())))
  {
    var f, g, h := c.At(q), c.At(r), c.At(t);
    AllFit(c, q, r, t);
    VanishesX(f, g, h);
    TripleS(f.x, f.y, f.z, g.x, g.y, g.z, h.x, h.y, h.z);
    CommutedPair(h.N(g), h.M(g), f.x, f.y);
    CrossZero(c.p, c.d, f.N(g) * h.y + f.M(g) * h.x, f.M(g) * h.x - f.N(g) * h.y, f.x * g.M(h) - f.y * g.N(h),
              f.W(), g.W(), h.W(), f.Q(), g.Q(), h.Q(), f.N(g) * f.M(g), g.N(h) * g.M(h), f.Norm(), g.Norm(), h.Norm());
  }

  lemma CrossY(c: Curve, q: Point, r: Point, t: Point)
    requires c.OnCurve(q) && c.OnCurve(r) && c.OnCurve(t)
    ensures var (n, m, n', m') := (c.At(q).N(c.At(r)), c.At(q).M(c.At(r)), c.At(t).N(c.At(r)), c.At(t).M(c.At(r)));
            var (v, v', z, z') := (c.Tau(q, r), c.Tau(t, r), c.a * t.x, c.a * q.x);
            Zero(c.p, ((m * t.y - n * z) + v * (m * t.y + n * z)) * (1 - v' * v' + c.d * ((-(n' * m')) * c.At(q).W()))
                      - ((m' * q.y - n' * z') + v' * (m' * q.y + n' * z'))
                        * (1 - v * v + c.d * ((-(n * m)) * c.At(t).W())))
  {
    var f, g, h := c.At(q), c.At(r), c.At(t);
    AllFit(c, q, r, t);
    VanishesY(f, g, h);
    TripleR(f.x, f.y, f.z, g.x, g.y, g.z, h.x, h.y, h.z);
    CommutedPair(h.N(g), h.M(g), f.z, f.y);
    SignedProduct(f.W(), f.Q(), g.W(), g.Q());
    SignedProduct(g.W(), g.Q(), h.W(), h.Q());
    CrossZero(c.p, c.d, f.M(g) * h.y - f.N(g) * h.z, f.M(g) * h.y + f.N(g) * h.z, f.y * g.M(h) + f.z * g.N(h),
              f.W(), g.W(), h.W(), -f.Q(), -g.Q(), -h.Q(), -(f.N(g) * f.M(g)), -(g.N(h) * g.M(h)), f.Norm(), g.Norm(),
              h.Norm());
  }

  lemma CommutedPair(n: int, m: int, x: int, y: int)
    ensures n * y == y * n && m * x == x * m && n * x == x * n && m * y == y * m
  {
  }

  lemma AllFit(c: Curve, q: Point, r: Point, t: Point)
    requires c.OnCurve(q) && c.OnCurve(r) && c.OnCurve(t)
    ensures var (f, g, h) := (c.At(q), c.At(r), c.At(t));
            && f.Fits(g) && f.Fits(h) && g.Fits(h)
            && h.N(g) == g.N(h) && h.M(g) == g.M(h)
            && f.N(g) * f.M(g) == f.W() * g.Q() + g.W() * f.Q()
            && g.N(h) * g.M(h) == g.W() * h.Q() + h.W() * g.Q()
            && Cong(c.p, f.Norm(), 1 + c.d * (f.W() * f.W()))
            && Cong(c.p, g.Norm(), 1 + c.d * (g.W() * g.W()))
            && Cong(c.p, h.Norm(), 1 + c.d * (h.W() * h.W()))
  {
    Fit(c, q, r);
    Fit(c, q, t);
    Fit(c, r, t);
    NumeratorsCommute(c.At(r), c.At(t));
    PairLemma(c.At(q), c.At(r));
    PairLemma(c.At(r), c.At(t));
    NormOnCurve(c, q);
    NormOnCurve(c, r);
    NormOnCurve(c, t);
  }
}
