/**
 Integer polynomial identities behind the group law of a*x^2 + y^2 = 1 + d*x^2*y^2.
 A point i contributes x, y and z = a*x. Throughout
   w = x*y,   u = z*x,   v = y*y,   n = u + v,   q = v - u,
 and for a pair of points N = x*y' + y*x', M = y*y' - z*x' (the numerators of the sum),
 K = y*x' - x*y', L = y*y' + z*x' (the numerators of the difference).
 */
module EdwardsAlgebra {
  import opened Modular

  /** z and x are proportional with the same factor for both points. */
  predicate Matched(x: int, z: int, x': int, z': int) {
    z * x' == x * z'
  }

  lemma MixSigns(a: int, b: int, c: int, e: int, s: int, t: int)
    ensures (a * b + c * e) * t + (a * b - c * e) * s == a * (b * (s + t)) - c * (e * (s - t))
  {
    Regroup(a, b, s + t);
    Regroup(c, e, s - t);
  }

  lemma NormSum(x: int, y: int, z: int, x': int, y': int, z': int)
    requires Matched(x, z, x', z')
    ensures (x * y) * (z' * x' + y' * y') + (x' * y') * (z * x + y * y) == (y * y' + z * x') * (x * y' + y * x')
  {
  }

  lemma NormDifference(x: int, y: int, z: int, x': int, y': int, z': int)
    requires Matched(x, z, x', z')
    ensures (x' * y') * (z * x + y * y) - (x * y) * (z' * x' + y' * y') == (y * x' - x * y') * (y * y' - z * x')
  {
  }

  /** N*M in terms of w and q. */
  lemma ProductNM(x: int, y: int, z: int, x': int, y': int, z': int)
    requires Matched(x, z, x', z')
    ensures (x * y' + y * x') * (y * y' - z * x') == (x * y) * (y' * y' - z' * x') + (x' * y') * (y * y - z * x)
  {
  }

  /** The norm form is multiplicative. */
  lemma NormProduct(x: int, y: int, z: int, x': int, y': int, z': int)
    requires Matched(x, z, x', z')
    ensures (z * y' + y * z') * (x * y' + y * x') + (y * y' - z * x') * (y * y' - z * x')
         == (z * x + y * y) * (z' * x' + y' * y')
  {
  }

  lemma CrossL(x: int, y: int, z: int, x': int, y': int, z': int)
    requires Matched(x, z, x', z')
    ensures (y * y') * (z * x + z' * x') + (z * x') * (y * y + y' * y') == (z * y' + y * z') * (x * y + x' * y')
  {
  }

  lemma CrossK(x: int, y: int, z: int, x': int, y': int, z': int)
    requires Matched(x, z, x', z')
    ensures (y * x') * (z * x + y' * y') - (x * y') * (y * y + z' * x') == (z * x' - y * y') * (x * y - x' * y')
  {
  }

  lemma SignsL(b: int, c: int, u: int, v: int, u': int, v': int)
    ensures (b + c) * ((u + v) + (u' + v')) == (b - c) * ((v - u) + (v' - u')) + 2 * (b * (u + u') + c * (v + v'))
  {
  }

  lemma SignsK(b: int, c: int, u: int, v: int, u': int, v': int)
    ensures (b - c) * ((u + v) + (u' + v')) == (c + b) * ((v - u) - (v' - u')) + 2 * (b * (u + v') - c * (v + u'))
  {
  }

  lemma SumOfNormsL(x: int, y: int, z: int, x': int, y': int, z': int)
    requires Matched(x, z, x', z')
    ensures (y * y' + z * x') * ((z * x + y * y) + (z' * x' + y' * y'))
         == (y * y' - z * x') * ((y * y - z * x) + (y' * y' - z' * x'))
            + 2 * ((z * y' + y * z') * (x * y + x' * y'))
  {
    CrossL(x, y, z, x', y', z');
    SignsL(y * y', z * x', z * x, y * y, z' * x', y' * y');
  }

  lemma SumOfNormsK(x: int, y: int, z: int, x': int, y': int, z': int)
    requires Matched(x, z, x', z')
    ensures (y * x' - x * y') * ((z * x + y * y) + (z' * x' + y' * y'))
         == (x * y' + y * x') * ((y * y - z * x) - (y' * y' - z' * x'))
            + 2 * ((z * x' - y * y') * (x * y - x' * y'))
  {
    CrossK(x, y, z, x', y', z');
    SignsK(y * x', x * y', z * x, y * y, z' * x', y' * y');
  }

  // ---------- products of three points ----------

  lemma TripleS(x1: int, y1: int, z1: int, x2: int, y2: int, z2: int, x3: int, y3: int, z3: int)
    requires Matched(x1, z1, x2, z2) && Matched(x2, z2, x3, z3)
    ensures (x1 * y2 + y1 * x2) * y3 + (y1 * y2 - z1 * x2) * x3 == x1 * (y2 * y3 - z2 * x3) + y1 * (x2 * y3 + y2 * x3)
  {
  }

  lemma TripleU(x1: int, y1: int, z1: int, x2: int, y2: int, z2: int, x3: int, y3: int, z3: int)
    requires Matched(x1, z1, x2, z2) && Matched(x2, z2, x3, z3)
    ensures (y1 * y2 - z1 * x2) * x3 - (x1 * y2 + y1 * x2) * y3 == y1 * (y2 * x3 - x2 * y3) - x1 * (y2 * y3 + z2 * x3)
  {
  }

  lemma TripleR(x1: int, y1: int, z1: int, x2: int, y2: int, z2: int, x3: int, y3: int, z3: int)
    requires Matched(x1, z1, x2, z2) && Matched(x2, z2, x3, z3) && Matched(x1, z1, x3, z3)
    ensures (y1 * y2 - z1 * x2) * y3 - (x1 * y2 + y1 * x2) * z3 == y1 * (y2 * y3 - z2 * x3) - z1 * (x2 * y3 + y2 * x3)
  {
  }

  lemma TripleT(x1: int, y1: int, z1: int, x2: int, y2: int, z2: int, x3: int, y3: int, z3: int)
    requires Matched(x1, z1, x2, z2) && Matched(x2, z2, x3, z3) && Matched(x1, z1, x3, z3)
    ensures (y1 * y2 - z1 * x2) * y3 + (x1 * y2 + y1 * x2) * z3 == y1 * (y2 * y3 + z2 * x3) + z1 * (y2 * x3 - x2 * y3)
  {
  }

  lemma DegreeNineMinus(x: int, y: int, z: int, n: int, m: int, o: int)
    requires z * n == x * o
    ensures (z * x + y * y) * (n * m) - (x * y) * (o * n + m * m) == -((x * m - y * n) * (y * m - z * n))
  {
  }

  lemma DegreeNinePlus(x: int, y: int, z: int, n: int, m: int, o: int)
    requires z * n == x * o
    ensures (z * x + y * y) * (n * m) + (x * y) * (o * n + m * m) == (x * m + y * n) * (y * m + z * n)
  {
  }

  /** The part of the degree-seven identity that is linear in the first point. */
  lemma LinearPart(x1: int, y1: int, m: int, n: int, k: int, l: int, s: int, t: int)
    requires s + t == l * n && t - s == k * m
    ensures (x1 * m + y1 * n) * s + (y1 * k - x1 * l) * (n * m) + (x1 * m - y1 * n) * t == 0
  {
    assert (x1 * m + y1 * n) * s + (x1 * m - y1 * n) * t == (x1 * m) * (s + t) - (y1 * n) * (t - s);
    assert (x1 * m) * (l * n) == (x1 * l) * (n * m);
    assert (y1 * n) * (k * m) == (y1 * k) * (n * m);
  }

  lemma LinearPartY(y: int, z: int, m: int, n: int, k: int, l: int, s: int, t: int)
    requires s + t == l * n && t - s == k * m
    ensures (y * m - z * n) * s + (y * l + z * k) * (-(n * m)) + (y * m + z * n) * t == 0
  {
    assert (y * m - z * n) * s + (y * m + z * n) * t == (y * m) * (s + t) + (z * n) * (t - s);
    assert (y * m) * (l * n) == (y * l) * (n * m);
    assert (z * n) * (k * m) == (z * k) * (n * m);
  }

  /** The remaining, cubic part of the degree-seven identity: its cofactor of w1 vanishes. */
  lemma CubicBracket(x: int, y: int, m: int, n: int, o: int, k: int, l: int,
                     w2: int, w3: int, q2: int, q3: int, norms: int)
    requires l * norms == m * (q2 + q3) + 2 * (o * (w2 + w3))
    requires k * norms == n * (q2 - q3) - 2 * (m * (w2 - w3))
    ensures (x * m + y * n) * q3 + (x * m - y * n) * q2 + (y * k - x * l) * norms
            + 2 * ((x * o) * (w2 + w3)) + 2 * ((y * m) * (w2 - w3)) == 0
  {
    assert (y * k - x * l) * norms == y * (k * norms) - x * (l * norms);
    MixSigns(x, m, y, n, q2, q3);
    Regroup(x, o, w2 + w3);
    Regroup(y, m, w2 - w3);
  }

  lemma CubicExpand(a: int, b: int, c: int, e: int, f: int, u: int, v: int,
                    w1: int, w2: int, w3: int, q2: int, q3: int, norms: int)
    requires u * (a - c) == 2 * (w1 * e) && v * (a + c) == 2 * (w1 * f)
    ensures a * (w2 * (u + v) + w1 * q3 - w3 * (v - u)) + b * (w1 * norms)
            - c * (w3 * (u + v) - (w1 * q2 + w2 * (v - u)))
         == w1 * (a * q3 + c * q2 + b * norms + 2 * (e * (w2 + w3)) + 2 * (f * (w2 - w3)))
  {
    SplitHalves(a, c, u, v, w2, w3);
    Regroup(w1, e, w2 + w3);
    Regroup(w1, f, w2 - w3);
    PullOut(w1, a, b, c, q3, norms, q2);
    Distribute(a, w2 * (u + v) - w3 * (v - u), w1 * q3);
    Distribute(c, w3 * (u + v) - w2 * (v - u), -(w1 * q2));
    DoubleOut(w1, e * (w2 + w3), f * (w2 - w3), a * q3 + c * q2 + b * norms);
  }

  lemma SplitHalves(a: int, c: int, u: int, v: int, w2: int, w3: int)
    ensures a * (w2 * (u + v) - w3 * (v - u)) - c * (w3 * (u + v) - w2 * (v - u))
         == (u * (a - c)) * (w2 + w3) + (v * (a + c)) * (w2 - w3)
  {
  }

  lemma DoubleOut(w: int, e: int, f: int, g: int)
    ensures w * g + 2 * (w * e) + 2 * (w * f) == w * (g + 2 * e + 2 * f)
  {
  }

  lemma PullOut(w: int, a: int, b: int, c: int, q: int, r: int, s: int)
    ensures a * (w * q) + b * (w * r) - c * (-(w * s)) == w * (a * q + c * s + b * r)
  {
  }

  /** Collecting the two parts. */
  lemma DegreeSeven(a: int, b: int, c: int, w1: int, w2: int, w3: int, n1: int, n2: int, n3: int,
                    q1: int, q3: int, m: int, m': int)
    requires a * (w2 * n3) + b * m' + c * (w3 * n2) == 0
    requires a * (w2 * n1 + w1 * q3 - w3 * q1) + b * (w1 * (n2 + n3)) - c * (w3 * n1 - m) == 0
    ensures a * (w2 * (n1 - n3) + w1 * q3 - w3 * q1) + b * (w1 * (n2 + n3) - m') - c * (w3 * (n1 + n2) - m) == 0
  {
  }

  /**
   The whole identity once d*w_i^2 has been replaced by n_i - 1: the degree-nine part
   cancels in pairs and the degree-seven part vanishes.
   */
  lemma Vanishes(a: int, b: int, c: int, r: int, w1: int, w2: int, w3: int, n1: int, n2: int, n3: int,
                 q1: int, q3: int, m: int, m': int)
    requires n1 * m' - w1 * (n2 * n3) == -(c * r) && n3 * m - w3 * (n1 * n2) == -(b * r)
    requires a * (w2 * (n1 - n3) + w1 * q3 - w3 * q1) + b * (w1 * (n2 + n3) - m') - c * (w3 * (n1 + n2) - m) == 0
    ensures a * (w2 * ((n1 - 1) - (n3 - 1)) + w1 * q3 - w3 * q1)
            + b * (w1 - w1 * ((n2 - 1) * (n3 - 1)) + (n1 - 1) * m')
            - c * (w3 - w3 * ((n1 - 1) * (n2 - 1)) + (n3 - 1) * m) == 0
  {
    assert w1 - w1 * ((n2 - 1) * (n3 - 1)) + (n1 - 1) * m' == (w1 * (n2 + n3) - m') - c * r;
    assert w3 - w3 * ((n1 - 1) * (n2 - 1)) + (n3 - 1) * m == (w3 * (n1 + n2) - m) - b * r;
    assert b * (c * r) == c * (b * r);
  }

  // ---------- the two associativity identities ----------

  /** What is used of the pair (2, 3). */
  predicate PairFacts(n: int, m: int, o: int, k: int, l: int,
                      w2: int, w3: int, n2: int, n3: int, q2: int, q3: int)
  {
    && w2 * n3 + w3 * n2 == l * n
    && w3 * n2 - w2 * n3 == k * m
    && l * (n2 + n3) == m * (q2 + q3) + 2 * (o * (w2 + w3))
    && k * (n2 + n3) == n * (q2 - q3) - 2 * (m * (w2 - w3))
  }

  lemma PairFactsHold(x: int, y: int, z: int, x': int, y': int, z': int)
    requires Matched(x, z, x', z')
    ensures PairFacts(x * y' + y * x', y * y' - z * x', z * y' + y * z', y * x' - x * y', y * y' + z * x',
                      x * y, x' * y', z * x + y * y, z' * x' + y' * y', y * y - z * x, y' * y' - z' * x')
  {
    NormSum(x, y, z, x', y', z');
    NormDifference(x, y, z, x', y', z');
    SumOfNormsL(x, y, z, x', y', z');
    SumOfNormsK(x, y, z, x', y', z');
    Negate(y * y', z * x', x * y - x' * y');
  }

  lemma Negate(a: int, b: int, c: int)
    ensures (a - b) * c == -((b - a) * c)
  {
  }

  lemma CubicX(x: int, y: int, z: int, n: int, m: int, o: int, k: int, l: int,
               w2: int, w3: int, n2: int, n3: int, q2: int, q3: int)
    requires PairFacts(n, m, o, k, l, w2, w3, n2, n3, q2, q3) && z * n == x * o
    ensures (x * m + y * n) * (w2 * (z * x + y * y) + (x * y) * q3 - w3 * (y * y - z * x))
            + (y * k - x * l) * ((x * y) * (n2 + n3))
            - (x * m - y * n) * (w3 * (z * x + y * y) - ((x * y) * q2 + w2 * (y * y - z * x))) == 0
  {
    CubicBracket(x, y, m, n, o, k, l, w2, w3, q2, q3, n2 + n3);
    CofactorX(x, y, z, n, m, o);
    CubicExpand(x * m + y * n, y * k - x * l, x * m - y * n, x * o, y * m, z * x, y * y, x * y,
                w2, w3, q2, q3, n2 + n3);
  }

  lemma CofactorX(x: int, y: int, z: int, n: int, m: int, o: int)
    requires z * n == x * o
    ensures (z * x) * ((x * m + y * n) - (x * m - y * n)) == 2 * ((x * y) * (x * o))
    ensures (y * y) * ((x * m + y * n) + (x * m - y * n)) == 2 * ((x * y) * (y * m))
  {
    Shuffle(z, x, y, n);
    Shuffle(y, y, x, m);
  }

  /** The same for the second coordinate: q changes sign. */
  lemma CubicY(x: int, y: int, z: int, n: int, m: int, o: int, k: int, l: int,
               w2: int, w3: int, n2: int, n3: int, q2: int, q3: int)
    requires PairFacts(n, m, o, k, l, w2, w3, n2, n3, q2, q3) && z * n == x * o
    ensures (y * m - z * n) * (w2 * (y * y + z * x) + (x * y) * (-q3) - w3 * (z * x - y * y))
            + (y * l + z * k) * ((x * y) * (n2 + n3))
            - (y * m + z * n) * (w3 * (y * y + z * x) - ((x * y) * (-q2) + w2 * (z * x - y * y))) == 0
  {
    var a, b, c := y * m - z * n, y * l + z * k, y * m + z * n;
    BracketY(y, z, m, n, o, k, l, w2, w3, q2, q3, n2 + n3);
    CofactorY(x, y, z, n, m, o);
    CubicExpand(a, b, c, -(y * o), z * m, y * y, z * x, x * y, w2, w3, -q2, -q3, n2 + n3);
    BracketSign(a, b, c, y * o, z * m, w2, w3, q2, q3, n2 + n3);
  }

  lemma BracketY(y: int, z: int, m: int, n: int, o: int, k: int, l: int,
                 w2: int, w3: int, q2: int, q3: int, norms: int)
    requires l * norms == m * (q2 + q3) + 2 * (o * (w2 + w3))
    requires k * norms == n * (q2 - q3) - 2 * (m * (w2 - w3))
    ensures (y * m - z * n) * q3 + (y * m + z * n) * q2 - (y * l + z * k) * norms
            + 2 * ((y * o) * (w2 + w3)) - 2 * ((z * m) * (w2 - w3)) == 0
  {
    assert (y * l + z * k) * norms == y * (l * norms) + z * (k * norms);
    MixSigns(y, m, z, n, q3, q2);
    assert z * (n * (q3 - q2)) == -(z * (n * (q2 - q3)));
    Regroup(y, o, w2 + w3);
    Regroup(z, m, w2 - w3);
  }

  lemma CofactorY(x: int, y: int, z: int, n: int, m: int, o: int)
    requires z * n == x * o
    ensures (y * y) * ((y * m - z * n) - (y * m + z * n)) == 2 * ((x * y) * (-(y * o)))
    ensures (z * x) * ((y * m - z * n) + (y * m + z * n)) == 2 * ((x * y) * (z * m))
  {
    Shuffle(y, y, x, o);
    Shuffle(z, x, y, m);
  }

  lemma BracketSign(a: int, b: int, c: int, e: int, f: int, w2: int, w3: int, q2: int, q3: int, norms: int)
    requires a * q3 + c * q2 - b * norms + 2 * (e * (w2 + w3)) - 2 * (f * (w2 - w3)) == 0
    ensures a * (-q3) + c * (-q2) + b * norms + 2 * ((-e) * (w2 + w3)) + 2 * (f * (w2 - w3)) == 0
  {
  }

  // ---------- assembly ----------

  /** The coordinates of a point together with z = a*x. */
  datatype Coords = Coords(x: int, y: int, z: int) {
    function W(): int { x * y }
    function Norm(): int { z * x + y * y }
    function Q(): int { y * y - z * x }
    function N(p: Coords): int { x * p.y + y * p.x }
    function M(p: Coords): int { y * p.y - z * p.x }
    function K(p: Coords): int { y * p.x - x * p.y }
    function L(p: Coords): int { y * p.y + z * p.x }
    function O(p: Coords): int { z * p.y + y * p.z }
    predicate Fits(p: Coords) { Matched(x, z, p.x, p.z) }
  }

  lemma PairLemma(p: Coords, p': Coords)
    requires p.Fits(p')
    ensures p.O(p') * p.N(p') + p.M(p') * p.M(p') == p.Norm() * p'.Norm()
    ensures p.N(p') * p.M(p') == p.W() * p'.Q() + p'.W() * p.Q()
    ensures PairFacts(p.N(p'), p.M(p'), p.O(p'), p.K(p'), p.L(p'), p.W(), p'.W(), p.Norm(), p'.Norm(), p.Q(), p'.Q())
  {
    NormProduct(p.x, p.y, p.z, p'.x, p'.y, p'.z);
    ProductNM(p.x, p.y, p.z, p'.x, p'.y, p'.z);
    PairFactsHold(p.x, p.y, p.z, p'.x, p'.y, p'.z);
  }

  lemma ThirdFactor(p: Coords, q: Coords, r: Coords)
    requires p.Fits(q) && p.Fits(r) && q.Fits(r)
    ensures p.z * q.N(r) == p.x * q.O(r)
    ensures r.z * p.N(q) == r.x * p.O(q)
  {
  }

  lemma SevenX(p: Coords, q: Coords, r: Coords)
    requires p.Fits(q) && p.Fits(r) && q.Fits(r)
    ensures (p.x * q.M(r) + p.y * q.N(r)) * (q.W() * (p.Norm() - r.Norm()) + p.W() * r.Q() - r.W() * p.Q())
            + (p.y * q.K(r) - p.x * q.L(r)) * (p.W() * (q.Norm() + r.Norm()) - q.N(r) * q.M(r))
            - (p.x * q.M(r) - p.y * q.N(r)) * (r.W() * (p.Norm() + q.Norm()) - p.N(q) * p.M(q)) == 0
  {
    ThirdFactor(p, q, r);
    PairLemma(q, r);
    PairLemma(p, q);
    var n, m, o, k, l := q.N(r), q.M(r), q.O(r), q.K(r), q.L(r);
    LinearPart(p.x, p.y, m, n, k, l, q.W() * r.Norm(), r.W() * q.Norm());
    CubicX(p.x, p.y, p.z, n, m, o, k, l, q.W(), r.W(), q.Norm(), r.Norm(), q.Q(), r.Q());
    DegreeSeven(p.x * m + p.y * n, p.y * k - p.x * l, p.x * m - p.y * n, p.W(), q.W(), r.W(),
                p.Norm(), q.Norm(), r.Norm(), p.Q(), r.Q(), p.N(q) * p.M(q), n * m);
  }

  lemma SevenY(p: Coords, q: Coords, r: Coords)
    requires p.Fits(q) && p.Fits(r) && q.Fits(r)
    ensures (p.y * q.M(r) - p.z * q.N(r)) * (q.W() * (p.Norm() - r.Norm()) + p.W() * (-r.Q()) - r.W() * (-p.Q()))
            + (p.y * q.L(r) + p.z * q.K(r)) * (p.W() * (q.Norm() + r.Norm()) - (-(q.N(r) * q.M(r))))
            - (p.y * q.M(r) + p.z * q.N(r)) * (r.W() * (p.Norm() + q.Norm()) - (-(p.N(q) * p.M(q)))) == 0
  {
    ThirdFactor(p, q, r);
    PairLemma(q, r);
    PairLemma(p, q);
    var n, m, o, k, l := q.N(r), q.M(r), q.O(r), q.K(r), q.L(r);
    LinearPartY(p.y, p.z, m, n, k, l, q.W() * r.Norm(), r.W() * q.Norm());
    CubicY(p.x, p.y, p.z, n, m, o, k, l, q.W(), r.W(), q.Norm(), r.Norm(), q.Q(), r.Q());
    SignedProduct(p.W(), p.Q(), q.W(), q.Q());
    DegreeSeven(p.y * m - p.z * n, p.y * l + p.z * k, p.y * m + p.z * n, p.W(), q.W(), r.W(),
                p.Norm(), q.Norm(), r.Norm(), -p.Q(), -r.Q(), -(p.N(q) * p.M(q)), -(n * m));
  }

  lemma SignedProduct(w: int, q: int, w': int, q': int)
    ensures w * (-q') + w' * (-q) == -(w * q' + w' * q)
  {
  }

  /** Everything of the first-coordinate identity but the common factor, with n - 1 for d*w^2. */
  lemma VanishesX(p: Coords, q: Coords, r: Coords)
    requires p.Fits(q) && p.Fits(r) && q.Fits(r)
    ensures (p.N(q) * r.y + p.M(q) * r.x) * (q.W() * ((p.Norm() - 1) - (r.Norm() - 1)) + p.W() * r.Q() - r.W() * p.Q())
            + (p.M(q) * r.x - p.N(q) * r.y) * (p.W() - p.W() * ((q.Norm() - 1) * (r.Norm() - 1))
                                               + (p.Norm() - 1) * (q.N(r) * q.M(r)))
            - (p.x * q.M(r) - p.y * q.N(r)) * (r.W() - r.W() * ((p.Norm() - 1) * (q.Norm() - 1))
                                               + (r.Norm() - 1) * (p.N(q) * p.M(q))) == 0
  {
    TripleS(p.x, p.y, p.z, q.x, q.y, q.z, r.x, r.y, r.z);
    TripleU(p.x, p.y, p.z, q.x, q.y, q.z, r.x, r.y, r.z);
    TripleR(p.x, p.y, p.z, q.x, q.y, q.z, r.x, r.y, r.z);
    SevenX(p, q, r);
    ThirdFactor(p, q, r);
    PairLemma(q, r);
    PairLemma(p, q);
    DegreeNineMinus(p.x, p.y, p.z, q.N(r), q.M(r), q.O(r));
    DegreeNineMinus(r.x, r.y, r.z, p.N(q), p.M(q), p.O(q));
    assert r.x * p.M(q) - r.y * p.N(q) == p.M(q) * r.x - p.N(q) * r.y;
    assert r.y * p.M(q) - r.z * p.N(q) == p.y * q.M(r) - p.z * q.N(r);
    Vanishes(p.N(q) * r.y + p.M(q) * r.x, p.M(q) * r.x - p.N(q) * r.y, p.x * q.M(r) - p.y * q.N(r),
             p.y * q.M(r) - p.z * q.N(r), p.W(), q.W(), r.W(), p.Norm(), q.Norm(), r.Norm(), p.Q(), r.Q(),
             p.N(q) * p.M(q), q.N(r) * q.M(r));
  }

  lemma NineY(p: Coords, n: int, m: int, o: int, norms: int, s: int, t: int)
    requires p.z * n == p.x * o && norms == o * n + m * m && s == p.x * m + p.y * n && t == p.y * m + p.z * n
    ensures p.Norm() * (-(n * m)) - p.W() * norms == -(t * s)
  {
    DegreeNinePlus(p.x, p.y, p.z, n, m, o);
  }

  /** The same for the second coordinate: q and N*M change sign. */
  lemma VanishesY(p: Coords, q: Coords, r: Coords)
    requires p.Fits(q) && p.Fits(r) && q.Fits(r)
    ensures (p.M(q) * r.y - p.N(q) * r.z) * (q.W() * ((p.Norm() - 1) - (r.Norm() - 1))
                                             + p.W() * (-r.Q()) - r.W() * (-p.Q()))
            + (p.M(q) * r.y + p.N(q) * r.z) * (p.W() - p.W() * ((q.Norm() - 1) * (r.Norm() - 1))
                                               + (p.Norm() - 1) * (-(q.N(r) * q.M(r))))
            - (p.y * q.M(r) + p.z * q.N(r)) * (r.W() - r.W() * ((p.Norm() - 1) * (q.Norm() - 1))
                                               + (r.Norm() - 1) * (-(p.N(q) * p.M(q)))) == 0
  {
    TripleS(p.x, p.y, p.z, q.x, q.y, q.z, r.x, r.y, r.z);
    TripleR(p.x, p.y, p.z, q.x, q.y, q.z, r.x, r.y, r.z);
    TripleT(p.x, p.y, p.z, q.x, q.y, q.z, r.x, r.y, r.z);
    SevenY(p, q, r);
    ThirdFactor(p, q, r);
    PairLemma(q, r);
    PairLemma(p, q);
    assert r.x * p.M(q) + r.y * p.N(q) == p.N(q) * r.y + p.M(q) * r.x;
    assert r.y * p.M(q) + r.z * p.N(q) == p.M(q) * r.y + p.N(q) * r.z;
    var m, m' := p.N(q) * p.M(q), q.N(r) * q.M(r);
    NineY(p, q.N(r), q.M(r), q.O(r), q.Norm() * r.Norm(), p.x * q.M(r) + p.y * q.N(r), p.y * q.M(r) + p.z * q.N(r));
    NineY(r, p.N(q), p.M(q), p.O(q), p.Norm() * q.Norm(), r.x * p.M(q) + r.y * p.N(q), r.y * p.M(q) + r.z * p.N(q));
    Vanishes(p.M(q) * r.y - p.N(q) * r.z, p.M(q) * r.y + p.N(q) * r.z, p.y * q.M(r) + p.z * q.N(r),
             p.x * q.M(r) + p.y * q.N(r), p.W(), q.W(), r.W(), p.Norm(), q.Norm(), r.Norm(), -p.Q(), -r.Q(), -m, -m');
  }

  /**
   Cross-multiplying the two bracketings takes out the factor g = d*w2.
   The numerators are s + t*u and s + t'*u', the denominators 1 - t*t + d*(m*w3) and 1 - t'*t' + d*(m'*w1).
   */
  lemma CommonFactor(s: int, u: int, u': int, d: int, w1: int, w2: int, w3: int, q1: int, q2: int, q3: int,
                     m: int, m': int, g: int, d1: int, d2: int, d3: int)
    requires m == w1 * q2 + w2 * q1 && m' == w2 * q3 + w3 * q2
    requires g == d * w2 && d1 == d * (w1 * w1) && d2 == d * (w2 * w2) && d3 == d * (w3 * w3)
    ensures (s + (g * w1) * u) * (1 - (g * w3) * (g * w3) + d * (m' * w1))
            - (s + (g * w3) * u') * (1 - (g * w1) * (g * w1) + d * (m * w3))
         == g * (s * (w2 * (d1 - d3) + w1 * q3 - w3 * q1)
                 + u * (w1 - w1 * (d2 * d3) + d1 * m') - u' * (w3 - w3 * (d1 * d2) + d3 * m))
  {
    var e, e' := 1 - (g * w1) * (g * w1) + d * (m * w3), 1 - (g * w3) * (g * w3) + d * (m' * w1);
    DenominatorGap(d, w1, w2, w3, q1, q2, q3, m, m', g, d1, d3);
    DenominatorTimes(d, w1, w2, w3, m', g, d1, d2, d3);
    DenominatorTimes(d, w3, w2, w1, m, g, d3, d2, d1);
    var v, v' := w1 - w1 * (d2 * d3) + d1 * m', w3 - w3 * (d2 * d1) + d3 * m;
    Spread(s, g, u, u', w1, w3, e, e', v, v', w2 * (d1 - d3) + w1 * q3 - w3 * q1);
  }

  lemma Spread(s: int, g: int, u: int, u': int, w1: int, w3: int, e: int, e': int, v: int, v': int, f: int)
    requires e' - e == g * f && w1 * e' == v && w3 * e == v'
    ensures (s + (g * w1) * u) * e' - (s + (g * w3) * u') * e == g * (s * f + u * v - u' * v')
  {
    SpreadTerm(s, g, u, w1, e');
    SpreadTerm(s, g, u', w3, e);
    assert s * e' - s * e == s * (g * f);
    assert s * (g * f) == g * (s * f);
  }

  lemma SpreadTerm(s: int, g: int, u: int, w: int, e: int)
    ensures (s + (g * w) * u) * e == s * e + g * (u * (w * e))
  {
    assert ((g * w) * u) * e == g * (u * (w * e));
  }

  lemma DenominatorTimes(d: int, w1: int, w2: int, w3: int, m: int, g: int, d1: int, d2: int, d3: int)
    requires g == d * w2 && d1 == d * (w1 * w1) && d2 == d * (w2 * w2) && d3 == d * (w3 * w3)
    ensures w1 * (1 - (g * w3) * (g * w3) + d * (m * w1)) == w1 - w1 * (d2 * d3) + d1 * m
  {
    assert (g * w3) * (g * w3) == d2 * d3;
    assert w1 * (d * (m * w1)) == d1 * m;
  }

  lemma DenominatorGap(d: int, w1: int, w2: int, w3: int, q1: int, q2: int, q3: int,
                       m: int, m': int, g: int, d1: int, d3: int)
    requires m == w1 * q2 + w2 * q1 && m' == w2 * q3 + w3 * q2
    requires g == d * w2 && d1 == d * (w1 * w1) && d3 == d * (w3 * w3)
    ensures (1 - (g * w3) * (g * w3) + d * (m' * w1)) - (1 - (g * w1) * (g * w1) + d * (m * w3))
         == g * (w2 * (d1 - d3) + (w1 * q3 - w3 * q1))
  {
    assert (g * w1) * (g * w1) == g * (w2 * d1);
    assert (g * w3) * (g * w3) == g * (w2 * d3);
    MixedGap(w1, w2, w3, q1, q2, q3);
    Collect(d, w2, g, m' * w1, m * w3, w1 * q3 - w3 * q1, d1, d3);
  }

  lemma MixedGap(w1: int, w2: int, w3: int, q1: int, q2: int, q3: int)
    ensures (w2 * q3 + w3 * q2) * w1 - (w1 * q2 + w2 * q1) * w3 == w2 * (w1 * q3 - w3 * q1)
  {
  }

  lemma Collect(d: int, w2: int, g: int, a: int, b: int, c: int, d1: int, d3: int)
    requires g == d * w2 && a - b == w2 * c
    ensures g * (w2 * d1) - g * (w2 * d3) + d * a - d * b == g * (w2 * (d1 - d3) + c)
  {
    assert d * a - d * b == d * (w2 * c);
    assert d * (w2 * c) == g * c;
  }

  // ---------- closure ----------

  lemma NormGap(p: Coords, q: Coords)
    requires p.Fits(q)
    ensures p.M(q) * p.M(q) - p.O(q) * p.N(q) == p.Q() * q.Q() - 4 * ((p.z * p.y) * q.W())
  {
    NormGapTerms(p.x, p.y, p.z, q.x, q.y, q.z);
  }

  lemma NormGapTerms(x: int, y: int, z: int, x': int, y': int, z': int)
    requires Matched(x, z, x', z')
    ensures (y * y' - z * x') * (y * y' - z * x') - (z * y' + y * z') * (x * y' + y * x')
         == (y * y - z * x) * (y' * y' - z' * x') - 4 * ((z * y) * (x' * y'))
  {
    Shuffle(y, y', y, y');                                  // b*b
    Shuffle(z, x', z', x);                                  // c*c, since c = z'*x
    Shuffle(y, y', z, x');                                  // b*c
    Shuffle(z, y', x, y');
    Shuffle(y, z', y, x');
    Shuffle(z, y', y, x');
    Shuffle(y, z', x, y');
    Commute(z, y, x', y', x, z');
    var b, c := y * y', z * x';
    GapCollect(b, c, z * y', y * z', x * y', y * x', z * x, y * y, z' * x', y' * y');
  }

  lemma Commute(z: int, y: int, x': int, y': int, x: int, z': int)
    requires z * x' == x * z'
    ensures z' * x == z * x' && x' * z' == z' * x'
    ensures (y * z) * (y' * x') == (z * y) * (x' * y')
    ensures (z * y) * (y' * x') == (z * y) * (x' * y')
    ensures (y * x) * (z' * y') == (y * y') * (z * x')
  {
    Shuffle(y, x, z', y');
    Shuffle(y, y', z, x');
  }

  lemma GapCollect(b: int, c: int, e: int, f: int, g: int, h: int, u: int, v: int, u': int, v': int)
    requires b * b == v * v' && c * c == u * u' && e * g == u * v' && f * h == v * u'
    requires e * h == b * c && f * g == b * c
    ensures (b - c) * (b - c) - (e + f) * (g + h) == (v - u) * (v' - u') - 4 * (b * c)
  {
  }

  lemma DiscriminantSquare(u: int, v: int)
    ensures (v - u) * (v - u) == (u + v) * (u + v) - 4 * (u * v)
  {
  }

  lemma SumOfSquares(alpha: int, beta: int, t: int)
    ensures alpha * ((1 - t) * (1 - t)) + beta * ((1 + t) * (1 + t))
         == (alpha + beta) * (1 + t * t) + 2 * (t * (beta - alpha))
    ensures ((1 + t) * (1 - t)) * ((1 + t) * (1 - t)) == (1 - t * t) * (1 - t * t)
  {
  }

  lemma SquareOfMixed(d: int, w1: int, w2: int, q1: int, q2: int, d1: int, d2: int, t: int)
    requires d1 == d * (w1 * w1) && d2 == d * (w2 * w2) && t == d * (w1 * w2)
    ensures d * ((w1 * q2 + w2 * q1) * (w1 * q2 + w2 * q1)) == d1 * (q2 * q2) + d2 * (q1 * q1) + 2 * (t * (q1 * q2))
    ensures t * t == d1 * d2
  {
    var e, f := w1 * q2, w2 * q1;
    Shuffle(w1, q2, w1, q2);
    Shuffle(w2, q1, w2, q1);
    Shuffle(w1, q2, w2, q1);
    assert q2 * q1 == q1 * q2;
    BinomialSquare(d, e, f);
    Regroup(d, w1 * w1, q2 * q2);
    Regroup(d, w2 * w2, q1 * q1);
    Regroup(d, w1 * w2, q1 * q2);
    Shuffle(d, w1 * w2, d, w1 * w2);
    Shuffle(d, w1 * w1, d, w2 * w2);
    Shuffle(w1, w2, w1, w2);
  }

  lemma BinomialSquare(d: int, e: int, f: int)
    ensures d * ((e + f) * (e + f)) == d * (e * e) + d * (f * f) + 2 * (d * (e * f))
  {
  }

  lemma CrossTerms(p: Coords, q: Coords, d: int)
    requires p.Fits(q)
    ensures (d * (p.W() * p.W())) * ((q.z * q.x) * (q.y * q.y)) == (d * (p.W() * q.W())) * ((p.z * p.y) * q.W())
    ensures (d * (q.W() * q.W())) * ((p.z * p.x) * (p.y * p.y)) == (d * (p.W() * q.W())) * ((p.z * p.y) * q.W())
  {
    CrossTerm(p.x, p.y, p.z, q.x, q.y, q.z);
    Regroup(d, p.W() * p.W(), (q.z * q.x) * (q.y * q.y));
    Regroup(d, q.W() * q.W(), (p.z * p.x) * (p.y * p.y));
    Regroup(d, p.W() * q.W(), (p.z * p.y) * q.W());
  }

  lemma CrossTerm(x: int, y: int, z: int, x': int, y': int, z': int)
    requires Matched(x, z, x', z')
    ensures ((x * y) * (x * y)) * ((z' * x') * (y' * y')) == ((x * y) * (x' * y')) * ((z * y) * (x' * y'))
    ensures ((x' * y') * (x' * y')) * ((z * x) * (y * y)) == ((x * y) * (x' * y')) * ((z * y) * (x' * y'))
  {
    assert (x * y) * (z' * y') == (z * y) * (x' * y');
    assert (z' * x') * (y' * y') == (x' * y') * (z' * y');
    assert (z * x) * (y * y) == (x * y) * (z * y);
  }

  /** The numerators of the curve equation for a sum, in terms of norms. */
  lemma ClosureIdentity(p: Coords, q: Coords, d: int, t: int, d1: int, d2: int)
    requires p.Fits(q)
    requires t == d * (p.W() * q.W()) && d1 == d * (p.W() * p.W()) && d2 == d * (q.W() * q.W())
    ensures (p.O(q) * p.N(q)) * ((1 - t) * (1 - t)) + (p.M(q) * p.M(q)) * ((1 + t) * (1 + t))
            - d * ((p.N(q) * p.M(q)) * (p.N(q) * p.M(q)))
         == (p.Norm() * q.Norm()) * (1 + d1 * d2) - d1 * (q.Norm() * q.Norm()) - d2 * (p.Norm() * p.Norm())
  {
    var alpha, beta := p.O(q) * p.N(q), p.M(q) * p.M(q);
    PairLemma(p, q);
    NormGap(p, q);
    SumOfSquares(alpha, beta, t);
    SquareOfMixed(d, p.W(), q.W(), p.Q(), q.Q(), d1, d2, t);
    DiscriminantSquare(p.z * p.x, p.y * p.y);
    DiscriminantSquare(q.z * q.x, q.y * q.y);
    CrossTerms(p, q, d);
    ClosureCollect(t, d1, d2, p.Q() * q.Q(), (p.z * p.y) * q.W(), q.Norm() * q.Norm(), p.Norm() * p.Norm(),
                   (q.z * q.x) * (q.y * q.y), (p.z * p.x) * (p.y * p.y));
  }

  lemma ClosureCollect(t: int, d1: int, d2: int, qq: int, c: int, n2n2: int, n1n1: int, uv2: int, uv1: int)
    requires d1 * uv2 == t * c && d2 * uv1 == t * c
    ensures 2 * (t * (qq - 4 * c)) - (d1 * (n2n2 - 4 * uv2) + d2 * (n1n1 - 4 * uv1) + 2 * (t * qq))
         == -(d1 * n2n2) - d2 * n1n1
  {
  }

  lemma ClosureAtNorms(d1: int, d2: int)
    ensures ((1 + d1) * (1 + d2)) * (1 + d1 * d2) - d1 * ((1 + d2) * (1 + d2)) - d2 * ((1 + d1) * (1 + d1))
         == (1 - d1 * d2) * (1 - d1 * d2)
  {
  }
}
