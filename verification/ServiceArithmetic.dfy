/**
 The number-theoretic helpers of backend/src/services/HomomorphicTallyService.ts.
 BigInt division and remainder truncate toward zero.
 */
module ServiceArithmetic {
  import opened Modular
  import opened Primes
  import opened Edwards
  import opened CurveGroup

  /** BigInt `/` for a positive divisor. */
  function BigIntDiv(a: int, b: int): int
    requires 0 < b
  {
    if 0 <= a then a / b else -((-a) / b)
  }

  /** BigInt `%` for a positive divisor: the remainder takes the sign of the dividend. */
  function BigIntRem(a: int, b: int): (r: int)
    requires 0 < b
    ensures 0 <= a ==> r == a % b
  {
    assert 0 <= a ==> a == b * (a / b) + a % b;
    a - b * BigIntDiv(a, b)
  }

  /**
   One round of extended Euclid keeps both rows congruent to their cofactor times a,
   and keeps a combination of the two rows equal to 1.
   */
  lemma EuclidStep(p: Modulus, a: int, oldR: int, r: int, oldS: int, s: int, u: int, v: int, q: int)
    requires Cong(p, oldR, oldS * a) && Cong(p, r, s * a) && u * oldR + v * r == 1
    ensures Cong(p, oldR - q * r, (oldS - q * s) * a)
    ensures (v + u * q) * r + u * (oldR - q * r) == 1
  {
    Scale(p, q, r, s * a);
    CongAdd(p, oldR, oldS * a, q * r, q * (s * a));
    Distribute(a, oldS, q * s);
    Regroup(q, s, a);
    Distribute(u, oldR, q * r);
    Regroup(u, q, r);
  }

  lemma Bezout(p: int, a: int) returns (u: int, v: int)
    requires IsPrime(p) && !Zero(p, a)
    ensures u * a + v * p == 1
  {
    u := Inv(p, a);
    var k := Witness(p, a * u, 1);
    v := -k;
    assert u * a == a * u && v * p == -(k * p);
  }

  lemma Division(a: int, b: int)
    requires 0 <= a && 0 < b
    ensures 0 <= a - BigIntDiv(a, b) * b < b
  {
    assert BigIntDiv(a, b) * b == b * (a / b);
  }

  lemma FirstQuotient(p: Modulus, a: int)
    requires 0 <= a && Zero(p, a)
    ensures a - BigIntDiv(a, p) * p == 0
  {
    Witnessed(p, a);
  }

  lemma Witnessed(p: Modulus, a: int)
    requires Zero(p, a)
    ensures (a / p) * p == a
  {
    assert a == (a / p) * p + a % p;
  }

  lemma EuclidExit(p: int, a: int, r: int, s: int, u: int)
    requires IsPrime(p) && 0 <= r && u * r == 1 && Cong(p, r, s * a)
    ensures Cong(p, a * (s % p), 1)
  {
    assert r == 1 by { UnitFactor(u, r); }
    Reduce(p, s);
    Scale(p, a, s % p, s);
  }

  lemma UnitFactor(u: int, r: int)
    requires 0 <= r && u * r == 1
    ensures r == 1
  {
    if r >= 2 {
      NoSmallMultiple(r, u);
    }
  }

  lemma BigIntNormalise(s: int, p: Modulus)
    ensures BigIntRem(BigIntRem(s, p) + p, p) == s % p
  {
    var k := BigIntDiv(s, p);
    var r := s - p * k;
    assert p * k == k * p;
    if 0 <= s {
      QuotientUnique(p, s, k, s % p);
    } else {
      assert -s == ((-s) / p) * p + (-s) % p;
      assert k * p == -(((-s) / p) * p);
    }
    MultipleAdds(p, r, k);
    MultipleAdds(p, r, 1);
    QuotientUnique(p, r + p, (r + p) / p, (r + p) % p);
    assert p * ((r + p) / p) == ((r + p) / p) * p;
  }

  /** modInv: the extended Euclidean algorithm returns the field inverse, and 0 for multiples of p. */
  method ModInv(a: int, p: int) returns (inverse: int)
    requires IsPrime(p) && 0 <= a
    ensures inverse == Inv(p, a)
  {
    var oldR, r := a, p;
    var oldS, s := 1, 0;
    ghost var u, v := 0, 0;
    Small(p, 0);
    MultipleAdds(p, 0, 1);
    if !Zero(p, a) {
      u, v := Bezout(p, a);
    } else {
      FirstQuotient(p, a);
    }
    while r != 0
      invariant 0 <= oldR && 0 <= r
      invariant !Zero(p, a) ==> Cong(p, oldR, oldS * a) && Cong(p, r, s * a) && u * oldR + v * r == 1
      invariant Zero(p, a) ==> (oldR == a && r == p && s == 0) || (r == 0 && oldS == 0)
      decreases r
    {
      var q := BigIntDiv(oldR, r);
      Division(oldR, r);
      if !Zero(p, a) {
        EuclidStep(p, a, oldR, r, oldS, s, u, v, q);
      }
      u, v := v + u * q, u;
      oldR, r := r, oldR - q * r;
      oldS, s := s, oldS - q * s;
    }
    BigIntNormalise(oldS, p);
    Reduce(p, oldS);
    inverse := BigIntRem(BigIntRem(oldS, p) + p, p);
    if !Zero(p, a) {
      assert v * r == 0;
      EuclidExit(p, a, oldR, oldS, u);
    }
    InvUnique(p, a, inverse);
  }

  /** bjjAdd: curve addition over BigInt. */
  method BjjAdd(c: Curve, x1: int, y1: int, x2: int, y2: int) returns (x3: int, y3: int)
    requires IsPrime(c.p) && 0 <= c.a && 0 <= c.d
    requires 0 <= x1 && 0 <= y1 && 0 <= x2 && 0 <= y2
    ensures Point(x3, y3) == Add(c, Point(x1, y1), Point(x2, y2))
  {
    hide BigIntRem, BigIntDiv, Curve.Sum;
    if x1 == 0 && y1 == 1 { return x2, y2; }
    if x2 == 0 && y2 == 1 { return x1, y1; }
    ResiduesNatural(c, Point(x1, y1), Point(x2, y2));
    ResiduesCorrect(c, Point(x1, y1), Point(x2, y2));
    var p := c.p;
    var x1x2 := BigIntRem(x1 * x2, p);
    var y1y2 := BigIntRem(y1 * y2, p);
    var dx1x2y1y2 := BigIntRem(BigIntRem(c.d * x1x2, p) * y1y2, p);

    var x3num := BigIntRem(BigIntRem(x1 * y2, p) + BigIntRem(y1 * x2, p), p);
    var x3den := BigIntRem(1 + dx1x2y1y2, p);
    var y3num := BigIntRem(y1y2 + p - BigIntRem(c.a * x1x2, p), p);
    var y3den := BigIntRem(1 + p - dx1x2y1y2, p);

    var xInv := ModInv(x3den, p);
    x3 := BigIntRem(x3num * xInv, p);
    var yInv := ModInv(y3den, p);
    y3 := BigIntRem(y3num * yInv, p);
  }

  /** bjjNeg: negation. */
  function BjjNeg(c: Curve, x: int, y: int): (r: (int, int))
    requires 0 < c.p
    ensures IsPrime(c.p) && 0 <= x < c.p ==> Point(r.0, r.1) == c.Neg(Point(x, y))
  {
    NegationResidue(c.p, x);
    (BigIntRem(c.p - x, c.p), y)
  }

  lemma NegationResidue(p: int, x: int)
    requires 0 < p
    ensures 0 <= x < p ==> BigIntRem(p - x, p) == (-x) % p
  {
    if 0 <= x < p {
      if p > 1 { MultipleAdds(p, -x, 1); }
    }
  }

  /** One bit of double-and-add. */
  lemma DoubleStep(c: Curve, r: Point, q: Point, s: nat)
    requires c.Complete() && c.OnCurve(r) && c.OnCurve(q)
    ensures c.Sum(r, Times(c, s, q))
         == c.Sum(if s % 2 == 1 then c.Sum(r, q) else r, Times(c, s / 2, c.Sum(q, q)))
  {
    hide Curve.Sum;
    var h := s / 2;
    TimesOne(c, q);
    TimesTimes(c, h, 2, q);
    TimesOnCurve(c, h * 2, q);
    if s % 2 == 1 {
      TimesAdd(c, h * 2, 1, q);
      SumCommutes(c, Times(c, h * 2, q), q);
      SumAssociative(c, r, q, Times(c, h * 2, q));
    }
  }

  /** Double-and-add as a function of the scalar, for any point. */
  ghost function DoubleAndAdd(c: Curve, k: nat, acc: Point, q: Point): Point
    requires IsPrime(c.p)
  {
    if k == 0 then acc
    else DoubleAndAdd(c, k / 2, if k % 2 == 1 then Add(c, acc, q) else acc, Add(c, q, q))
  }

  /** On the curve it is k-fold addition. */
  lemma {:induction false} DoubleAndAddIsTimes(c: Curve, k: nat, acc: Point, q: Point)
    requires c.Complete() && c.OnCurve(acc) && c.OnCurve(q)
    ensures DoubleAndAdd(c, k, acc, q) == c.Sum(acc, Times(c, k, q))
  {
    hide Curve.Sum, Curve.OnCurve, Curve.Complete, Add;
    if k == 0 {
      NoTimes(c, q);
      SumNeutral(c, acc);
    } else {
      AddIsSum(c, acc, q);
      AddIsSum(c, q, q);
      DoubleAndAddIsTimes(c, k / 2, if k % 2 == 1 then Add(c, acc, q) else acc, Add(c, q, q));
      DoubleStep(c, acc, q, k);
    }
  }

  lemma NoTimes(c: Curve, q: Point)
    requires IsPrime(c.p)
    ensures Times(c, 0, q) == NEUTRAL
  {
  }

  /**
   bjjScalarMul: double-and-add with the service's addition, which on the curve is k-fold addition. A negative scalar
   gives the neutral element.
   */
  method BjjScalarMul(c: Curve, scalar: int, px: int, py: int) returns (rx: int, ry: int)
    requires IsPrime(c.p) && 0 <= c.a && 0 <= c.d && Reduced(c, Point(px, py))
    ensures Reduced(c, Point(rx, ry))
    ensures Point(rx, ry) == DoubleAndAdd(c, if scalar < 0 then 0 else scalar, NEUTRAL, Point(px, py))
    ensures c.Complete() && c.OnCurve(Point(px, py)) ==>
      Point(rx, ry) == Times(c, if scalar < 0 then 0 else scalar, Point(px, py)) && c.OnCurve(Point(rx, ry))
  {
    hide Curve.Sum, Curve.OnCurve, Curve.Complete, Add;
    rx, ry := NEUTRAL.x, NEUTRAL.y;
    var cx, cy := px, py;
    var s := scalar;
    ghost var k := if scalar < 0 then 0 else scalar;
    while s > 0
      invariant Reduced(c, Point(rx, ry)) && Reduced(c, Point(cx, cy))
      invariant DoubleAndAdd(c, if s < 0 then 0 else s, Point(rx, ry), Point(cx, cy))
             == DoubleAndAdd(c, k, NEUTRAL, Point(px, py))
    {
      AddReduced(c, Point(rx, ry), Point(cx, cy));
      AddReduced(c, Point(cx, cy), Point(cx, cy));
      if s % 2 == 1 {
        rx, ry := BjjAdd(c, rx, ry, cx, cy);
      }
      cx, cy := BjjAdd(c, cx, cy, cx, cy);
      s := s / 2;
    }
    if c.Complete() && c.OnCurve(Point(px, py)) {
      NeutralOnCurve(c);
      TimesOnCurve(c, k, Point(px, py));
      DoubleAndAddIsTimes(c, k, NEUTRAL, Point(px, py));
      SumNeutral(c, Times(c, k, Point(px, py)));
    }
  }

  // ---------- baby-step giant-step ----------

  datatype Option<T> = None | Some(value: T)

  /** The smallest integer whose square reaches n: Math.ceil(Math.sqrt(n)). */
  function CeilSqrt(n: nat): (r: nat)
    ensures n <= r * r && (r > 0 ==> (r - 1) * (r - 1) < n) && r <= n
  {
    CeilSqrtFrom(n, 0)
  }

  function CeilSqrtFrom(n: nat, r: nat): (s: nat)
    requires r > 0 ==> (r - 1) * (r - 1) < n
    ensures n <= s * s && (s > 0 ==> (s - 1) * (s - 1) < n)
    ensures r <= n ==> s <= n
    decreases n - r
  {
    SquareGrows(r);
    if n <= r * r then r else CeilSqrtFrom(n, r + 1)
  }

  lemma SquareGrows(r: nat)
    ensures r <= r * r && (r + 1 - 1) * (r + 1 - 1) == r * r
  {
  }

  ghost predicate BabySteps(c: Curve, g: Point, table: map<Point, nat>, m: nat)
    requires IsPrime(c.p)
  {
    && |table| == m
    && (forall j: nat :: j < m ==> Times(c, j, g) in table)
    && (forall q :: q in table ==> table[q] < m && Times(c, table[q], g) == q)
  }

  lemma BabyStep(c: Curve, g: Point, table: map<Point, nat>, j: nat, n: nat)
    requires c.Complete() && c.OnCurve(g) && OrderAbove(c, g, n) && j <= n
    requires BabySteps(c, g, table, j)
    ensures Times(c, j, g) !in table && BabySteps(c, g, table[Times(c, j, g) := j], j + 1)
  {
    hide Curve.Sum, Curve.OnCurve, Curve.Complete;
    var q := Times(c, j, g);
    if q in table {
      TimesInjective(c, g, n, table[q], j);
    }
    var table' := table[q := j];
    forall i: nat | i < j + 1
      ensures Times(c, i, g) in table'
    {
    }
  }

  /** With T - n*G on the curve found at j baby steps, T is n + j steps away. */
  lemma GiantHit(c: Curve, g: Point, n: nat, j: nat, target: Point, current: Point)
    requires c.Complete() && c.OnCurve(g) && c.OnCurve(current)
    requires c.Sum(current, Times(c, n, g)) == target && current == Times(c, j, g)
    ensures Times(c, n + j, g) == target
  {
    hide Curve.Sum, Curve.OnCurve, Curve.Complete;
    TimesOnCurve(c, n, g);
    TimesAdd(c, n, j, g);
    SumCommutes(c, Times(c, n, g), current);
  }

  lemma GiantMatch(c: Curve, g: Point, n: nat, j: nat, target: Point, current: Point)
    requires c.Complete() && c.OnCurve(g) && c.OnCurve(current)
    requires c.Sum(current, Times(c, n, g)) == target && Times(c, n + j, g) == target
    ensures current == Times(c, j, g)
  {
    hide Curve.Sum, Curve.OnCurve, Curve.Complete;
    var b := Times(c, n, g);
    TimesOnCurve(c, n, g);
    TimesAdd(c, n, j, g);
    TimesOnCurve(c, j, g);
    SumCommutes(c, b, Times(c, j, g));
    CancelRight(c, current, Times(c, j, g), b);
  }

  lemma NextBaby(c: Curve, g: Point, j: nat)
    requires IsPrime(c.p)
    ensures c.Sum(Times(c, j, g), g) == Times(c, j + 1, g)
  {
  }

  lemma BabyStepFound(c: Curve, g: Point, table: map<Point, nat>, m: nat, j: nat, maxK: nat)
    requires c.Complete() && c.OnCurve(g) && OrderAbove(c, g, maxK)
    requires BabySteps(c, g, table, m) && m <= maxK + 1 && j < m
    ensures Times(c, j, g) in table && table[Times(c, j, g)] == j
  {
    hide Curve.Sum, Curve.OnCurve, Curve.Complete, OrderAbove;
    TimesInjective(c, g, maxK, table[Times(c, j, g)], j);
  }

  lemma NextGiant(c: Curve, g: Point, m: nat, base: nat, target: Point, current: Point, next: Point)
    requires c.Complete() && c.OnCurve(g) && c.OnCurve(current)
    requires c.Sum(current, Times(c, base, g)) == target
    requires next == c.Sum(current, c.Neg(Times(c, m, g)))
    ensures c.OnCurve(next) && c.Sum(next, Times(c, base + m, g)) == target
  {
    hide Curve.Sum, Curve.OnCurve, Curve.Complete;
    var b := Times(c, m, g);
    TimesOnCurve(c, m, g);
    TimesOnCurve(c, base, g);
    NegOnCurve(c, b);
    SumOnCurve(c, current, c.Neg(b));
    assert m + base == base + m;
    TimesAdd(c, m, base, g);
    SumAssociative(c, next, b, Times(c, base, g));
    AddThenSubtract(c, current, b);
  }

  /** The point looked up after i giant steps from the target. */
  ghost function Walk(c: Curve, step: Point, target: Point, i: nat): Point
    requires IsPrime(c.p)
  {
    if i == 0 then target else Add(c, Walk(c, step, target, i - 1), step)
  }

  /** The giant steps subtract m*G. */
  ghost function GiantStep(c: Curve, g: Point, m: nat): Point
    requires IsPrime(c.p)
  {
    c.Neg(Times(c, m, g))
  }

  /** After i giant steps the walk stands where j baby steps lead. */
  ghost predicate Meets(c: Curve, g: Point, m: nat, target: Point, i: nat, j: nat)
    requires IsPrime(c.p)
  {
    Walk(c, GiantStep(c, g, m), target, i) == Times(c, j, g)
  }

  /** No meeting within the bound before the i-th giant step. */
  ghost predicate NoMeeting(c: Curve, g: Point, m: nat, target: Point, maxK: nat, i: nat)
    requires IsPrime(c.p)
  {
    forall n: nat, j: nat :: n < i && j < m && n * m + j <= maxK ==> !Meets(c, g, m, target, n, j)
  }

  /** k stands for the first meeting within the bound. */
  ghost predicate FirstMeeting(c: Curve, g: Point, m: nat, target: Point, maxK: nat, k: nat)
    requires IsPrime(c.p)
  {
    k <= maxK && exists n: nat, j: nat ::
      (n < m && j < m && k == n * m + j && Meets(c, g, m, target, n, j) && NoMeeting(c, g, m, target, maxK, n))
  }

  /** On the curve the walk takes i*m*G away from the target. */
  lemma {:induction false} WalkOnCurve(c: Curve, g: Point, m: nat, target: Point, i: nat)
    requires c.Complete() && c.OnCurve(g) && c.OnCurve(target)
    ensures var w := Walk(c, GiantStep(c, g, m), target, i); c.OnCurve(w) && c.Sum(w, Times(c, i * m, g)) == target
  {
    hide Curve.Sum, Curve.OnCurve, Curve.Complete, Curve.Neg, Add;
    if i == 0 {
      NoTimes(c, g);
      SumNeutral(c, target);
    } else {
      var w := Walk(c, GiantStep(c, g, m), target, i - 1);
      WalkOnCurve(c, g, m, target, i - 1);
      TimesOnCurve(c, m, g);
      NegOnCurve(c, Times(c, m, g));
      AddIsSum(c, w, GiantStep(c, g, m));
      NextBase(i - 1, m);
      NextGiant(c, g, m, (i - 1) * m, target, w, Add(c, w, GiantStep(c, g, m)));
    }
  }

  /** On the curve meetings are discrete logarithms: n giant and j baby steps meet exactly if (n*m + j)*G = T. */
  lemma MeetingIsLogarithm(c: Curve, g: Point, m: nat, target: Point, n: nat, j: nat)
    requires c.Complete() && c.OnCurve(g) && c.OnCurve(target)
    ensures Meets(c, g, m, target, n, j) <==> Times(c, n * m + j, g) == target
  {
    hide Curve.Sum, Curve.OnCurve, Curve.Complete, Walk, GiantStep, Times;
    WalkOnCurve(c, g, m, target, n);
    var w := Walk(c, GiantStep(c, g, m), target, n);
    if Meets(c, g, m, target, n, j) {
      GiantHit(c, g, n * m, j, target, w);
    } else if Times(c, n * m + j, g) == target {
      GiantMatch(c, g, n * m, j, target, w);
    }
  }

  lemma BlockMissed(c: Curve, g: Point, table: map<Point, nat>, m: nat, target: Point, maxK: nat, i: nat)
    requires c.Complete() && c.OnCurve(g) && OrderAbove(c, g, maxK)
    requires BabySteps(c, g, table, m) && m <= maxK + 1 && NoMeeting(c, g, m, target, maxK, i)
    requires var w := Walk(c, GiantStep(c, g, m), target, i); w in table ==> i * m + table[w] > maxK
    ensures NoMeeting(c, g, m, target, maxK, i + 1)
  {
    hide Curve.Sum, Curve.OnCurve, Curve.Complete, Walk, GiantStep, Times, OrderAbove, BabySteps;
    forall n: nat, j: nat | n < i + 1 && j < m && n * m + j <= maxK
      ensures !Meets(c, g, m, target, n, j)
    {
      if n == i {
        BabyStepFound(c, g, table, m, j, maxK);
      }
    }
  }

  lemma MissedMeansNone(c: Curve, g: Point, m: nat, target: Point, maxK: nat)
    requires c.Complete() && c.OnCurve(g) && c.OnCurve(target) && 0 < m && maxK < m * m
    requires NoMeeting(c, g, m, target, maxK, m)
    ensures forall k: nat :: k <= maxK ==> Times(c, k, g) != target
  {
    hide Curve.Sum, Curve.OnCurve, Curve.Complete, Times, Meets;
    forall k: nat | k <= maxK ensures Times(c, k, g) != target {
      SplitIndex(k, m);
      MeetingIsLogarithm(c, g, m, target, k / m, k % m);
    }
  }

  lemma SplitIndex(k: nat, m: nat)
    requires 0 < m && k < m * m
    ensures (k / m) * m + k % m == k && k / m < m && k % m < m
  {
    if k / m >= m {
      MulGrows(k / m, m);
    }
  }

  lemma MulGrows(q: nat, m: nat)
    requires q >= m
    ensures q * m >= m * m
  {
  }

  /** The number of baby steps, and of giant steps. */
  function StepsFor(maxK: nat): (m: nat)
    ensures 0 < m <= maxK + 1 && maxK < m * m
  {
    Covers(maxK, CeilSqrt(maxK) + 1);
    CeilSqrt(maxK) + 1
  }

  /**
   bsgs: for any reduced target, the first meeting of the walk with a baby step within the bound, or None if there
   is none. For a target on the curve this is sound and complete: it returns k exactly when k <= maxK and k*G is the
   target, and None exactly when no such k exists. The baby-step table never loses an entry.
   */
  method Bsgs(c: Curve, g: Point, tx: int, ty: int, maxK: nat) returns (result: Option<nat>)
    requires c.Complete() && 0 <= c.a && 0 <= c.d
    requires c.OnCurve(g) && OrderAbove(c, g, maxK) && Reduced(c, Point(tx, ty))
    ensures result.Some? ==> FirstMeeting(c, g, StepsFor(maxK), Point(tx, ty), maxK, result.value)
    ensures result.None? ==> NoMeeting(c, g, StepsFor(maxK), Point(tx, ty), maxK, StepsFor(maxK))
    ensures c.OnCurve(Point(tx, ty)) ==>
      && (result.Some? ==> Times(c, result.value, g) == Point(tx, ty))
      && (result.None? ==> forall k: nat :: k <= maxK ==> Times(c, k, g) != Point(tx, ty))
  {
    hide Curve.Sum, Curve.OnCurve, Curve.Complete, Curve.Neg, Add, Times, BigIntRem, CeilSqrt, StepsFor, OrderAbove,
         IsPrime, BabySteps, NoMeeting, FirstMeeting, Walk, GiantStep, Meets;
    var m := CeilSqrt(maxK) + 1;
    StepsAre(maxK);
    var table: map<Point, nat> := map[];
    var babyX, babyY := NEUTRAL.x, NEUTRAL.y;
    NeutralOnCurve(c);
    NoTimes(c, g);
    SearchStarts(c, g, m, Point(tx, ty), maxK);
    var j := 0;
    while j < m
      invariant 0 <= j <= m
      invariant c.OnCurve(Point(babyX, babyY)) && Point(babyX, babyY) == Times(c, j, g)
      invariant BabySteps(c, g, table, j)
    {
      BabyStep(c, g, table, j, maxK);
      table := table[Point(babyX, babyY) := j];
      AddIsSum(c, Point(babyX, babyY), g);
      NextBaby(c, g, j);
      babyX, babyY := BjjAdd(c, babyX, babyY, g.x, g.y);
      j := j + 1;
    }

    var mgx, mgy := BjjScalarMul(c, m, g.x, g.y);
    NegOnCurve(c, Point(mgx, mgy));
    var neg := BjjNeg(c, mgx, mgy);

    var gx, gy := tx, ty;
    var i := 0;
    while i < m
      invariant 0 <= i <= m && Reduced(c, Point(gx, gy))
      invariant Point(gx, gy) == Walk(c, GiantStep(c, g, m), Point(tx, ty), i)
      invariant NoMeeting(c, g, m, Point(tx, ty), maxK, i)
    {
      var key := Point(gx, gy);
      if key in table {
        TableTells(c, g, table, m, key);
        var k := i * m + table[key];
        if k <= maxK {
          MeetingFound(c, g, m, Point(tx, ty), maxK, i, table[key]);
          if c.OnCurve(Point(tx, ty)) { MeetingIsLogarithm(c, g, m, Point(tx, ty), i, table[key]); }
          return Some(k);
        }
      }
      BlockMissed(c, g, table, m, Point(tx, ty), maxK, i);
      AddReduced(c, key, Point(neg.0, neg.1));
      gx, gy := BjjAdd(c, gx, gy, neg.0, neg.1);
      NextWalk(c, g, m, Point(tx, ty), i);
      i := i + 1;
    }
    if c.OnCurve(Point(tx, ty)) { MissedMeansNone(c, g, m, Point(tx, ty), maxK); }
    result := None;
  }

  lemma StepsAre(maxK: nat)
    ensures StepsFor(maxK) == CeilSqrt(maxK) + 1
  {
  }

  lemma SearchStarts(c: Curve, g: Point, m: nat, target: Point, maxK: nat)
    requires IsPrime(c.p)
    ensures BabySteps(c, g, map[], 0) && NoMeeting(c, g, m, target, maxK, 0)
    ensures Walk(c, GiantStep(c, g, m), target, 0) == target
  {
  }

  lemma NextWalk(c: Curve, g: Point, m: nat, target: Point, i: nat)
    requires IsPrime(c.p)
    ensures Walk(c, GiantStep(c, g, m), target, i + 1)
         == Add(c, Walk(c, GiantStep(c, g, m), target, i), c.Neg(Times(c, m, g)))
  {
  }

  lemma MeetingFound(c: Curve, g: Point, m: nat, target: Point, maxK: nat, i: nat, j: nat)
    requires IsPrime(c.p) && i < m && j < m && i * m + j <= maxK
    requires Walk(c, GiantStep(c, g, m), target, i) == Times(c, j, g) && NoMeeting(c, g, m, target, maxK, i)
    ensures Meets(c, g, m, target, i, j) && FirstMeeting(c, g, m, target, maxK, i * m + j)
  {
    assert Meets(c, g, m, target, i, j);
    hide Meets, NoMeeting;
  }

  lemma TableTells(c: Curve, g: Point, table: map<Point, nat>, m: nat, q: Point)
    requires IsPrime(c.p) && BabySteps(c, g, table, m) && q in table
    ensures table[q] < m && Times(c, table[q], g) == q
  {
  }

  lemma NextBase(i: nat, m: nat)
    ensures i * m + m == (i + 1) * m
  {
  }

  lemma Covers(maxK: nat, m: nat)
    requires m == CeilSqrt(maxK) + 1
    ensures maxK < m * m
  {
    var r := CeilSqrt(maxK);
    assert m * m == r * r + 2 * r + 1;
  }
}
