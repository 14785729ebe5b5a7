/**
 Additive ElGamal over the curve: what accumulating ciphertexts point by point and decrypting
 the accumulated pair yields.
 */
module ElGamal {
  import opened Primes
  import opened Edwards
  import opened CurveGroup
  import opened Sequences

  /** A ciphertext (C1, C2). */
  datatype Ciphertext = Ciphertext(c1: Point, c2: Point)

  const EMPTY := Ciphertext(NEUTRAL, NEUTRAL)

  ghost predicate Valid(c: Curve, e: Ciphertext) {
    c.OnCurve(e.c1) && c.OnCurve(e.c2)
  }

  /** What is encrypted and with which randomness. */
  datatype Opening = Opening(v: nat, r: nat)

  ghost function Encrypt(c: Curve, g: Point, pk: Point, o: Opening): Ciphertext
    requires IsPrime(c.p)
  {
    Ciphertext(Times(c, o.r, g), c.Sum(Times(c, o.v, g), Times(c, o.r, pk)))
  }

  ghost function AddCiphertexts(c: Curve, a: Ciphertext, b: Ciphertext): Ciphertext
    requires IsPrime(c.p)
  {
    Ciphertext(Add(c, a.c1, b.c1), Add(c, a.c2, b.c2))
  }

  /** The accumulator after a list of ciphertexts. */
  ghost function Accumulate(c: Curve, es: seq<Ciphertext>): Ciphertext
    requires IsPrime(c.p)
  {
    if es == [] then EMPTY else AddCiphertexts(c, Accumulate(c, es[..|es| - 1]), es[|es| - 1])
  }

  function VoteSum(os: seq<Opening>): nat {
    if os == [] then 0 else VoteSum(os[..|os| - 1]) + os[|os| - 1].v
  }

  function RandomnessSum(os: seq<Opening>): nat {
    if os == [] then 0 else RandomnessSum(os[..|os| - 1]) + os[|os| - 1].r
  }

  lemma {:induction false} VoteSumBound(os: seq<Opening>)
    requires forall o :: o in os ==> o.v <= 1
    ensures VoteSum(os) <= |os|
  {
    if os != [] {
      assert os[|os| - 1] in os;
      forall o | o in os[..|os| - 1] ensures o.v <= 1 { assert o in os; }
      VoteSumBound(os[..|os| - 1]);
    }
  }

  ghost predicate Opens(c: Curve, g: Point, pk: Point, es: seq<Ciphertext>, os: seq<Opening>)
    requires IsPrime(c.p)
  {
    |es| == |os| && forall i :: 0 <= i < |es| ==> es[i] == Encrypt(c, g, pk, os[i])
  }

  lemma EncryptValid(c: Curve, g: Point, pk: Point, o: Opening)
    requires c.Complete() && c.OnCurve(g) && c.OnCurve(pk)
    ensures Valid(c, Encrypt(c, g, pk, o))
  {
    hide Curve.Sum, Curve.OnCurve;
    TimesOnCurve(c, o.r, g);
    TimesOnCurve(c, o.v, g);
    TimesOnCurve(c, o.r, pk);
    SumOnCurve(c, Times(c, o.v, g), Times(c, o.r, pk));
  }

  /** Encryption is a homomorphism. */
  lemma EncryptAdds(c: Curve, g: Point, pk: Point, a: Opening, b: Opening)
    requires c.Complete() && c.OnCurve(g) && c.OnCurve(pk)
    ensures AddCiphertexts(c, Encrypt(c, g, pk, a), Encrypt(c, g, pk, b))
         == Encrypt(c, g, pk, Opening(a.v + b.v, a.r + b.r))
  {
    hide Curve.Sum, Curve.OnCurve;
    EncryptValid(c, g, pk, a);
    EncryptValid(c, g, pk, b);
    TimesOnCurve(c, a.v, g);
    TimesOnCurve(c, b.v, g);
    TimesOnCurve(c, a.r, pk);
    TimesOnCurve(c, b.r, pk);
    AddIsSum(c, Encrypt(c, g, pk, a).c1, Encrypt(c, g, pk, b).c1);
    AddIsSum(c, Encrypt(c, g, pk, a).c2, Encrypt(c, g, pk, b).c2);
    TimesAdd(c, a.r, b.r, g);
    TimesAdd(c, a.v, b.v, g);
    TimesAdd(c, a.r, b.r, pk);
    Interchange(c, Times(c, a.v, g), Times(c, a.r, pk), Times(c, b.v, g), Times(c, b.r, pk));
  }

  /** The accumulator of encryptions is the encryption of the sums. */
  lemma {:induction false} AccumulateEncrypts(c: Curve, g: Point, pk: Point, es: seq<Ciphertext>, os: seq<Opening>)
    requires c.Complete() && c.OnCurve(g) && c.OnCurve(pk) && Opens(c, g, pk, es, os)
    ensures Accumulate(c, es) == Encrypt(c, g, pk, Opening(VoteSum(os), RandomnessSum(os)))
  {
    hide Curve.Sum, Curve.OnCurve;
    if es == [] {
      NeutralOnCurve(c);
      SumNeutral(c, NEUTRAL);
    } else {
      var n := |es| - 1;
      AccumulateEncrypts(c, g, pk, es[..n], os[..n]);
      EncryptAdds(c, g, pk, Opening(VoteSum(os[..n]), RandomnessSum(os[..n])), os[n]);
    }
  }

  /** Decryption: T = C2 - sk*C1. */
  ghost function Decrypt(c: Curve, sk: nat, e: Ciphertext): Point
    requires IsPrime(c.p)
  {
    Add(c, e.c2, c.Neg(Times(c, sk, e.c1)))
  }

  /** Decrypting an encryption of v under PK = sk*G gives v*G, whatever the randomness. */
  lemma DecryptEncrypt(c: Curve, g: Point, sk: nat, o: Opening)
    requires c.Complete() && c.OnCurve(g)
    ensures Decrypt(c, sk, Encrypt(c, g, Times(c, sk, g), o)) == Times(c, o.v, g)
  {
    hide Curve.Sum, Curve.OnCurve, Curve.Neg;
    var pk := Times(c, sk, g);
    TimesOnCurve(c, sk, g);
    EncryptValid(c, g, pk, o);
    TimesTimes(c, o.r, sk, g);
    TimesTimes(c, sk, o.r, g);
    assert o.r * sk == sk * o.r;
    var mask := Times(c, o.r, pk);
    TimesOnCurve(c, o.r, pk);
    TimesOnCurve(c, o.v, g);
    NegOnCurve(c, mask);
    AddIsSum(c, c.Sum(Times(c, o.v, g), mask), c.Neg(mask));
    AddThenSubtract(c, Times(c, o.v, g), mask);
  }

  /** End to end on the algebra: decrypting the accumulated ballots gives (sum of votes)*G. */
  lemma DecryptTally(c: Curve, g: Point, sk: nat, es: seq<Ciphertext>, os: seq<Opening>)
    requires c.Complete() && c.OnCurve(g) && Opens(c, g, Times(c, sk, g), es, os)
    ensures Valid(c, Accumulate(c, es))
    ensures c.OnCurve(Decrypt(c, sk, Accumulate(c, es)))
    ensures Decrypt(c, sk, Accumulate(c, es)) == Times(c, VoteSum(os), g)
  {
    hide Curve.Sum, Curve.OnCurve;
    var total := Opening(VoteSum(os), RandomnessSum(os));
    TimesOnCurve(c, sk, g);
    AccumulateEncrypts(c, g, Times(c, sk, g), es, os);
    EncryptValid(c, g, Times(c, sk, g), total);
    DecryptEncrypt(c, g, sk, total);
    TimesOnCurve(c, VoteSum(os), g);
  }

  // ---------- the order of the ballots does not matter ----------

  lemma {:induction false} AccumulateValid(c: Curve, es: seq<Ciphertext>)
    requires c.Complete() && forall i :: 0 <= i < |es| ==> Valid(c, es[i])
    ensures Valid(c, Accumulate(c, es))
  {
    hide Curve.Sum, Curve.OnCurve;
    NeutralOnCurve(c);
    if es != [] {
      var n := |es| - 1;
      AccumulateValid(c, es[..n]);
      AddIsSum(c, Accumulate(c, es[..n]).c1, es[n].c1);
      AddIsSum(c, Accumulate(c, es[..n]).c2, es[n].c2);
    }
  }

  /** (x + a) + b = (x + b) + a */
  lemma SwapLast(c: Curve, x: Point, a: Point, b: Point)
    requires c.Complete() && c.OnCurve(x) && c.OnCurve(a) && c.OnCurve(b)
    ensures Add(c, Add(c, x, a), b) == Add(c, Add(c, x, b), a)
  {
    hide Curve.Sum, Curve.OnCurve;
    AddIsSum(c, x, a);
    AddIsSum(c, x, b);
    AddIsSum(c, c.Sum(x, a), b);
    AddIsSum(c, c.Sum(x, b), a);
    SumAssociative(c, x, a, b);
    SumAssociative(c, x, b, a);
    SumCommutes(c, a, b);
  }

  /** Any one ciphertext may be accumulated last. */
  lemma {:induction false} MoveLast(c: Curve, es: seq<Ciphertext>, i: nat)
    requires c.Complete() && i < |es| && forall i :: 0 <= i < |es| ==> Valid(c, es[i])
    ensures Accumulate(c, es) == AddCiphertexts(c, Accumulate(c, RemoveAt(es, i)), es[i])
  {
    hide Curve.Sum, Curve.OnCurve;
    var n := |es| - 1;
    if i == n {
      assert RemoveAt(es, i) == es[..n];
    } else {
      var init := es[..n];
      MoveLast(c, init, i);
      var rest := RemoveAt(es, i);
      assert rest == RemoveAt(init, i) + [es[n]];
      assert rest[..n - 1] == RemoveAt(init, i);
      AccumulateValid(c, rest[..n - 1]);
      var a := Accumulate(c, rest[..n - 1]);
      SwapLast(c, a.c1, es[i].c1, es[n].c1);
      SwapLast(c, a.c2, es[i].c2, es[n].c2);
    }
  }

  lemma {:induction false} AccumulatePermutes(c: Curve, es: seq<Ciphertext>, fs: seq<Ciphertext>)
    requires c.Complete() && multiset(es) == multiset(fs)
    requires forall i :: 0 <= i < |es| ==> Valid(c, es[i])
    ensures Accumulate(c, es) == Accumulate(c, fs)
    decreases |es|
  {
    hide Curve.Sum, Curve.OnCurve, Valid;
    if es == [] {
      PermutationEmpty(fs);
    } else {
      var i := MatchLast(es, fs);
      ValidPermutes(c, es, fs);
      MoveLast(c, fs, i);
      AccumulatePermutes(c, es[..|es| - 1], RemoveAt(fs, i));
    }
  }

  lemma ValidPermutes(c: Curve, es: seq<Ciphertext>, fs: seq<Ciphertext>)
    requires multiset(es) == multiset(fs) && forall i :: 0 <= i < |es| ==> Valid(c, es[i])
    ensures forall k :: 0 <= k < |fs| ==> Valid(c, fs[k])
  {
    hide Valid;
    forall k | 0 <= k < |fs| ensures Valid(c, fs[k]) { assert fs[k] in multiset(es); }
  }
}
