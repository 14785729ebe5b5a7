/**
 blockchain/circuits/eligibility_plonk.circom: knowledge of a leaf of the commitment tree.
 The two-input hash is a parameter. A hash from pairs of residues to residues cannot be injective, so soundness
 speaks of the finitely many pairs that the tree and the witness hash: unless one pair of the witness collides
 with another one of the tree, the commitment is the leaf that the path bits name.
 */
module Eligibility {
  import opened Circuits
  import opened Modular
  import opened Primes

  type Hash = (int, int) -> int

  /** Signals are residues modulo p, and so are hashes. */
  ghost predicate FieldHash(h: Hash, p: int) {
    forall a, b :: 0 <= h(a, b) < p
  }

  datatype Statement = Statement(root: int, nullifier: int, pollId: int, countryCode: int)
  datatype Secret = Secret(voterSecret: int, pathElements: seq<int>, pathIndices: seq<int>)

  /** levelHashes[levels], starting from levelHashes[0] = commitment. */
  function LevelHash(h: Hash, p: int, commitment: int, elements: seq<int>, indices: seq<int>): int
    requires 0 < p && |elements| == |indices|
    decreases |elements|
  {
    if elements == [] then commitment else
      var n := |elements| - 1;
      var below := LevelHash(h, p, commitment, elements[..n], indices[..n]);
      h(Mux(p, below, elements[n], indices[n]), Mux(p, elements[n], below, indices[n]))
  }

  predicate Residues(p: int, s: seq<int>) {
    forall i :: 0 <= i < |s| ==> 0 <= s[i] < p
  }

  predicate IndexConstraints(p: Modulus, s: seq<int>) {
    forall i :: 0 <= i < |s| ==> Zero(p, s[i] * (s[i] - 1))
  }

  ghost predicate Satisfied(h: Hash, p: int, levels: nat, x: Statement, w: Secret)
    requires IsPrime(p)
  {
    && |w.pathElements| == |w.pathIndices| == levels
    && Residues(p, w.pathElements) && Residues(p, w.pathIndices)
    && h(w.voterSecret, x.pollId) == x.nullifier
    && IndexConstraints(p, w.pathIndices)
    && LevelHash(h, p, h(w.voterSecret, x.countryCode), w.pathElements, w.pathIndices) == x.root
  }

  // ---------- the tree ----------

  datatype Tree = Leaf(value: int) | Node(left: Tree, right: Tree) {
    predicate Perfect(levels: nat) {
      match this
      case Leaf(_) => levels == 0
      case Node(l, r) => levels > 0 && l.Perfect(levels - 1) && r.Perfect(levels - 1)
    }

    function Digest(h: Hash): int {
      match this
      case Leaf(v) => v
      case Node(l, r) => h(l.Digest(h), r.Digest(h))
    }

    /** The registered commitments, left to right. */
    function Leaves(): seq<int> {
      match this
      case Leaf(v) => [v]
      case Node(l, r) => l.Leaves() + r.Leaves()
    }
  }

  predicate Bits(s: seq<int>) {
    forall i :: 0 <= i < |s| ==> s[i] == 0 || s[i] == 1
  }

  /** Sum of pathIndices[i] * 2^i. */
  function IndexOf(bits: seq<int>): int {
    if bits == [] then 0 else
      var n := |bits| - 1;
      IndexOf(bits[..n]) + bits[n] * Power2(n)
  }

  /** Little-endian bits of a leaf index. */
  function PathBits(levels: nat, i: nat): (r: seq<int>)
    ensures |r| == levels
  {
    if levels == 0 then [] else
      var m := Power2(levels - 1);
      PathBits(levels - 1, if i < m then i else i - m) + [if i < m then 0 else 1]
  }

  /** The siblings met on the way up from the leaf the bits lead to. */
  function Path(h: Hash, t: Tree, bits: seq<int>): (r: seq<int>)
    requires t.Perfect(|bits|)
    ensures |r| == |bits|
    decreases t
  {
    match t
    case Leaf(_) => []
    case Node(l, r) =>
      var n := |bits| - 1;
      if bits[n] == 0 then Path(h, l, bits[..n]) + [r.Digest(h)] else Path(h, r, bits[..n]) + [l.Digest(h)]
  }

  lemma {:induction false} LeafCount(t: Tree, levels: nat)
    requires t.Perfect(levels)
    ensures |t.Leaves()| == Power2(levels)
  {
    match t
    case Leaf(_) =>
    case Node(l, r) => LeafCount(l, levels - 1); LeafCount(r, levels - 1);
  }

  // ---------- the constraint on the indices ----------

  /** b*(b - 1) = 0 over a prime field leaves only 0 and 1. */
  lemma IndexIsBit(p: int, b: int)
    requires IsPrime(p) && 0 <= b < p
    ensures Zero(p, b * (b - 1)) <==> b == 0 || b == 1
  {
    ZeroProduct(p, b, b - 1);
    Small(p, 0);
    Small(p, b);
    if b >= 1 {
      Small(p, b - 1);
    }
  }

  lemma {:induction false} IndexInRange(bits: seq<int>)
    requires Bits(bits)
    ensures 0 <= IndexOf(bits) < Power2(|bits|)
  {
    if bits != [] {
      var n := |bits| - 1;
      IndexInRange(bits[..n]);
      assert bits[n] * Power2(n) == 0 || bits[n] * Power2(n) == Power2(n);
    }
  }

  /** The top bit decides between the two halves of the leaves. */
  lemma IndexHalves(l: Tree, r: Tree, bits: seq<int>)
    requires |bits| > 0 && Bits(bits) && l.Perfect(|bits| - 1) && r.Perfect(|bits| - 1)
    ensures var n := |bits| - 1;
            && 0 <= IndexOf(bits) < |Node(l, r).Leaves()|
            && 0 <= IndexOf(bits[..n]) < Power2(n) == |l.Leaves()| == |r.Leaves()|
            && Node(l, r).Leaves()[IndexOf(bits)] == (if bits[n] == 0 then l else r).Leaves()[IndexOf(bits[..n])]
  {
    hide IndexOf, Power2, Bits, Tree.Perfect, Tree.Leaves;
    var n := |bits| - 1;
    LeafCount(l, n);
    LeafCount(r, n);
    TopBit(bits);
    IndexInRange(bits[..n]);
    HalvesJoin(l, r);
  }

  lemma TopBit(bits: seq<int>)
    requires |bits| > 0 && Bits(bits)
    ensures var n := |bits| - 1;
      && Bits(bits[..n]) && (bits[n] == 0 || bits[n] == 1)
      && IndexOf(bits) == IndexOf(bits[..n]) + if bits[n] == 0 then 0 else Power2(n)
  {
    hide Power2;
    var n := |bits| - 1;
    assert bits[n] * Power2(n) == if bits[n] == 0 then 0 else Power2(n);
  }

  lemma HalvesJoin(l: Tree, r: Tree)
    ensures Node(l, r).Leaves() == l.Leaves() + r.Leaves()
  {
  }

  /** One level up: the pair is (node, sibling) for bit 0 and (sibling, node) for bit 1. */
  lemma LevelStep(h: Hash, p: int, commitment: int, elements: seq<int>, indices: seq<int>)
    requires 1 < p && FieldHash(h, p) && 0 <= commitment < p && |elements| == |indices| > 0 && Residues(p, elements)
    requires indices[|indices| - 1] == 0 || indices[|indices| - 1] == 1
    ensures var n := |elements| - 1;
            var below, e := LevelHash(h, p, commitment, elements[..n], indices[..n]), elements[n];
            && 0 <= below < p
            && LevelHash(h, p, commitment, elements, indices) == if indices[n] == 0 then h(below, e) else h(e, below)
  {
    var n := |elements| - 1;
    LevelInField(h, p, commitment, elements[..n], indices[..n]);
    var below := LevelHash(h, p, commitment, elements[..n], indices[..n]);
    MuxSelects(p, below, elements[n], indices[n]);
    MuxSelects(p, elements[n], below, indices[n]);
  }

  lemma LevelInField(h: Hash, p: int, commitment: int, elements: seq<int>, indices: seq<int>)
    requires 0 < p && FieldHash(h, p) && 0 <= commitment < p && |elements| == |indices|
    ensures 0 <= LevelHash(h, p, commitment, elements, indices) < p
  {
  }

  lemma {:induction false} DigestInField(h: Hash, p: int, t: Tree)
    requires FieldHash(h, p) && Residues(p, t.Leaves())
    ensures 0 <= t.Digest(h) < p
  {
    match t
    case Leaf(v) => assert t.Leaves()[0] == v;
    case Node(l, r) =>
      var a, b := l.Digest(h), r.Digest(h);
      assert 0 <= h(a, b) < p;
  }

  // ---------- completeness ----------

  lemma {:induction false} PathInField(h: Hash, p: int, t: Tree, bits: seq<int>)
    requires FieldHash(h, p) && t.Perfect(|bits|) && Residues(p, t.Leaves())
    ensures Residues(p, Path(h, t, bits))
    decreases t
  {
    match t
    case Leaf(_) =>
    case Node(l, r) =>
      hide FieldHash;
      HalvesAreResidues(p, l, r);
      DigestInField(h, p, l);
      DigestInField(h, p, r);
      PathInField(h, p, if bits[|bits| - 1] == 0 then l else r, bits[..|bits| - 1]);
  }

  lemma PathSplit(h: Hash, t: Tree, bits: seq<int>)
    requires t.Node? && t.Perfect(|bits|)
    ensures var n := |bits| - 1;
            && Path(h, t, bits)[..n] == Path(h, if bits[n] == 0 then t.left else t.right, bits[..n])
            && Path(h, t, bits)[n] == (if bits[n] == 0 then t.right else t.left).Digest(h)
  {
  }

  lemma {:induction false} HonestClimb(h: Hash, p: int, t: Tree, bits: seq<int>)
    requires 1 < p && FieldHash(h, p) && t.Perfect(|bits|) && Bits(bits) && Residues(p, t.Leaves())
    ensures 0 <= IndexOf(bits) < |t.Leaves()|
    ensures LevelHash(h, p, t.Leaves()[IndexOf(bits)], Path(h, t, bits), bits) == t.Digest(h)
    decreases t
  {
    match t
    case Leaf(_) =>
    case Node(l, r) =>
      hide LevelHash, FieldHash, Path, Residues, IndexOf;
      var n := |bits| - 1;
      HalvesAreResidues(p, l, r);
      IndexHalves(l, r, bits);
      HonestClimb(h, p, if bits[n] == 0 then l else r, bits[..n]);
      PathInField(h, p, t, bits);
      PathSplit(h, t, bits);
      LeafInField(p, t.Leaves(), IndexOf(bits));
      LevelStep(h, p, t.Leaves()[IndexOf(bits)], Path(h, t, bits), bits);
  }

  lemma LeafInField(p: int, leaves: seq<int>, i: int)
    requires Residues(p, leaves) && 0 <= i < |leaves|
    ensures 0 <= leaves[i] < p
  {
  }

  lemma HalvesAreResidues(p: int, l: Tree, r: Tree)
    requires Residues(p, Node(l, r).Leaves())
    ensures Residues(p, l.Leaves()) && Residues(p, r.Leaves())
  {
    var both := Node(l, r).Leaves();
    forall i | 0 <= i < |l.Leaves()| ensures 0 <= l.Leaves()[i] < p { assert both[i] == l.Leaves()[i]; }
    forall i | 0 <= i < |r.Leaves()| ensures 0 <= r.Leaves()[i] < p { assert both[|l.Leaves()| + i] == r.Leaves()[i]; }
  }

  lemma {:induction false} PathBitsAre(levels: nat, i: nat)
    requires i < Power2(levels)
    ensures Bits(PathBits(levels, i)) && IndexOf(PathBits(levels, i)) == i
  {
    if levels != 0 {
      var m := Power2(levels - 1);
      var j := if i < m then i else i - m;
      PathBitsAre(levels - 1, j);
      assert PathBits(levels, i)[..levels - 1] == PathBits(levels - 1, j);
    }
  }

  /** Every registered voter can satisfy the circuit, at every depth and for every leaf. */
  lemma CircuitComplete(h: Hash, p: int, levels: nat, t: Tree, i: nat, voterSecret: int, pollId: int, countryCode: int)
    requires IsPrime(p) && FieldHash(h, p) && t.Perfect(levels) && Residues(p, t.Leaves())
    requires i < |t.Leaves()| && t.Leaves()[i] == h(voterSecret, countryCode)
    ensures Satisfied(h, p, levels, Statement(t.Digest(h), h(voterSecret, pollId), pollId, countryCode),
                      Secret(voterSecret, Path(h, t, PathBits(levels, i)), PathBits(levels, i)))
  {
    hide FieldHash, LevelHash, IndexConstraints, IndexOf, Path, Residues;
    var bits := PathBits(levels, i);
    LeafCount(t, levels);
    PathBitsAre(levels, i);
    PathInField(h, p, t, bits);
    HonestClimb(h, p, t, bits);
    BitsSatisfy(p, bits);
  }

  lemma BitsSatisfy(p: int, bits: seq<int>)
    requires IsPrime(p) && Bits(bits)
    ensures Residues(p, bits) && IndexConstraints(p, bits)
  {
    forall k | 0 <= k < |bits| ensures Zero(p, bits[k] * (bits[k] - 1)) {
      IndexIsBit(p, bits[k]);
    }
  }

  // ---------- soundness ----------

  type Pair = (int, int)

  /** Two different pairs with the same hash. */
  predicate Collide(h: Hash, q: Pair, r: Pair) {
    q != r && h(q.0, q.1) == h(r.0, r.1)
  }

  /** The pairs hashed to build the tree. */
  function TreePairs(h: Hash, t: Tree): set<Pair> {
    match t
    case Leaf(_) => {}
    case Node(l, r) => TreePairs(h, l) + TreePairs(h, r) + {(l.Digest(h), r.Digest(h))}
  }

  /** The pairs that the circuit hashes on the way up. */
  function ClimbPairs(h: Hash, p: int, commitment: int, elements: seq<int>, indices: seq<int>): set<Pair>
    requires 0 < p && |elements| == |indices|
    decreases |elements|
  {
    if elements == [] then {} else
      var n := |elements| - 1;
      var below := LevelHash(h, p, commitment, elements[..n], indices[..n]);
      ClimbPairs(h, p, commitment, elements[..n], indices[..n])
      + {(Mux(p, below, elements[n], indices[n]), Mux(p, elements[n], below, indices[n]))}
  }

  /** No pair hashed on the way up collides with another one of the tree. */
  ghost predicate NoCollision(h: Hash, p: int, t: Tree, commitment: int, elements: seq<int>, indices: seq<int>)
    requires 0 < p && |elements| == |indices|
  {
    forall q, r :: q in ClimbPairs(h, p, commitment, elements, indices) && r in TreePairs(h, t) ==> !Collide(h, q, r)
  }

  lemma TopPair(h: Hash, p: int, commitment: int, elements: seq<int>, indices: seq<int>)
    requires 1 < p && FieldHash(h, p) && 0 <= commitment < p && |elements| == |indices| > 0 && Residues(p, elements)
    requires indices[|indices| - 1] == 0 || indices[|indices| - 1] == 1
    ensures var n := |elements| - 1;
      var below, e := LevelHash(h, p, commitment, elements[..n], indices[..n]), elements[n];
      && 0 <= below < p
      && LevelHash(h, p, commitment, elements, indices) == (if indices[n] == 0 then h(below, e) else h(e, below))
      && ClimbPairs(h, p, commitment, elements, indices)
         == ClimbPairs(h, p, commitment, elements[..n], indices[..n])
            + {if indices[n] == 0 then (below, e) else (e, below)}
  {
    LevelStep(h, p, commitment, elements, indices);
    var n := |elements| - 1;
    var below := LevelHash(h, p, commitment, elements[..n], indices[..n]);
    MuxSelects(p, below, elements[n], indices[n]);
    MuxSelects(p, elements[n], below, indices[n]);
  }

  lemma SubtreePairs(h: Hash, t: Tree)
    requires t.Node?
    ensures TreePairs(h, t.left) <= TreePairs(h, t) && TreePairs(h, t.right) <= TreePairs(h, t)
    ensures (t.left.Digest(h), t.right.Digest(h)) in TreePairs(h, t)
    ensures t.Digest(h) == h(t.left.Digest(h), t.right.Digest(h))
  {
  }

  /** The pair at the top decides whether the climb went through the right child, with the right sibling. */
  lemma TopAgrees(h: Hash, p: int, t: Tree, commitment: int, elements: seq<int>, indices: seq<int>)
    requires 1 < p && FieldHash(h, p) && 0 <= commitment < p && t.Node?
    requires |elements| == |indices| > 0 && Residues(p, elements)
    requires indices[|indices| - 1] == 0 || indices[|indices| - 1] == 1
    requires LevelHash(h, p, commitment, elements, indices) == t.Digest(h)
    requires NoCollision(h, p, t, commitment, elements, indices)
    ensures var n := |elements| - 1;
      var child, sibling := if indices[n] == 0 then t.left else t.right, if indices[n] == 0 then t.right else t.left;
      && LevelHash(h, p, commitment, elements[..n], indices[..n]) == child.Digest(h) && elements[n] == sibling.Digest(h)
      && NoCollision(h, p, child, commitment, elements[..n], indices[..n])
  {
    TopPair(h, p, commitment, elements, indices);
    SubtreePairs(h, t);
    hide LevelHash, ClimbPairs, TreePairs, FieldHash, Tree.Digest;
    var n := |elements| - 1;
    var below, e := LevelHash(h, p, commitment, elements[..n], indices[..n]), elements[n];
    var q := if indices[n] == 0 then (below, e) else (e, below);
    assert q in ClimbPairs(h, p, commitment, elements, indices);
    assert !Collide(h, q, (t.left.Digest(h), t.right.Digest(h)));
  }

  /**
   Unless pairs collide, the root is reached from the leaf that the bits name along its siblings, and from
   nothing else.
   */
  lemma {:induction false} ClimbSound(h: Hash, p: int, t: Tree, commitment: int, elements: seq<int>, indices: seq<int>)
    requires 1 < p && FieldHash(h, p) && 0 <= commitment < p
    requires |elements| == |indices| && t.Perfect(|indices|) && Residues(p, elements) && Bits(indices)
    requires NoCollision(h, p, t, commitment, elements, indices)
    requires LevelHash(h, p, commitment, elements, indices) == t.Digest(h)
    ensures 0 <= IndexOf(indices) < |t.Leaves()|
    ensures commitment == t.Leaves()[IndexOf(indices)] && elements == Path(h, t, indices)
    decreases t
  {
    match t
    case Leaf(_) =>
    case Node(l, r) =>
      hide LevelHash, FieldHash, NoCollision, Residues, Bits, IndexOf, Path, Tree.Leaves, Tree.Digest;
      var n := |elements| - 1;
      BelowTop(p, elements, indices);
      IndexHalves(l, r, indices);
      TopAgrees(h, p, t, commitment, elements, indices);
      ClimbSound(h, p, if indices[n] == 0 then l else r, commitment, elements[..n], indices[..n]);
      PathSplit(h, t, indices);
      SamePath(elements, Path(h, t, indices));
  }

  lemma BelowTop(p: int, elements: seq<int>, indices: seq<int>)
    requires |elements| == |indices| > 0 && Residues(p, elements) && Bits(indices)
    ensures var n := |elements| - 1;
      Residues(p, elements[..n]) && Bits(indices[..n]) && (indices[n] == 0 || indices[n] == 1)
  {
  }

  lemma SamePath(a: seq<int>, b: seq<int>)
    requires |a| == |b| > 0 && a[..|a| - 1] == b[..|b| - 1] && a[|a| - 1] == b[|b| - 1]
    ensures a == b
  {
    assert a == a[..|a| - 1] + [a[|a| - 1]] && b == b[..|b| - 1] + [b[|b| - 1]];
  }

  /** The other way round, the constraints of the path hold exactly for the leaf and its siblings. */
  lemma ClimbExactly(h: Hash, p: int, t: Tree, commitment: int, elements: seq<int>, indices: seq<int>)
    requires 1 < p && FieldHash(h, p) && 0 <= commitment < p && Residues(p, t.Leaves())
    requires |elements| == |indices| && t.Perfect(|indices|) && Residues(p, elements) && Bits(indices)
    requires NoCollision(h, p, t, commitment, elements, indices)
    ensures 0 <= IndexOf(indices) < |t.Leaves()|
    ensures LevelHash(h, p, commitment, elements, indices) == t.Digest(h) <==>
      commitment == t.Leaves()[IndexOf(indices)] && elements == Path(h, t, indices)
  {
    hide LevelHash, FieldHash, NoCollision, Path, IndexOf, Residues, Bits;
    HonestClimb(h, p, t, indices);
    if LevelHash(h, p, commitment, elements, indices) == t.Digest(h) {
      ClimbSound(h, p, t, commitment, elements, indices);
    }
  }

  /**
   Soundness at every depth: a satisfying witness, none of whose path pairs collides with one of the tree, names a
   registered commitment and the siblings of its leaf.
   */
  lemma CircuitSound(h: Hash, p: int, levels: nat, t: Tree, x: Statement, w: Secret)
    requires IsPrime(p) && FieldHash(h, p) && t.Perfect(levels)
    requires x.root == t.Digest(h) && Satisfied(h, p, levels, x, w)
    requires NoCollision(h, p, t, h(w.voterSecret, x.countryCode), w.pathElements, w.pathIndices)
    ensures Bits(w.pathIndices) && 0 <= IndexOf(w.pathIndices) < |t.Leaves()|
    ensures h(w.voterSecret, x.countryCode) == t.Leaves()[IndexOf(w.pathIndices)]
    ensures w.pathElements == Path(h, t, w.pathIndices)
  {
    hide LevelHash, NoCollision;
    forall i | 0 <= i < levels ensures w.pathIndices[i] == 0 || w.pathIndices[i] == 1 {
      IndexIsBit(p, w.pathIndices[i]);
    }
    ClimbSound(h, p, t, h(w.voterSecret, x.countryCode), w.pathElements, w.pathIndices);
  }

  /** A commitment that is not in the tree is only accepted with a pair of the witness that collides with the tree. */
  lemma ForgeryShowsCollision(h: Hash, p: int, levels: nat, t: Tree, x: Statement, w: Secret) returns (q: Pair, r: Pair)
    requires IsPrime(p) && FieldHash(h, p) && t.Perfect(levels)
    requires x.root == t.Digest(h) && Satisfied(h, p, levels, x, w)
    requires h(w.voterSecret, x.countryCode) !in t.Leaves()
    ensures q in ClimbPairs(h, p, h(w.voterSecret, x.countryCode), w.pathElements, w.pathIndices)
    ensures r in TreePairs(h, t) && Collide(h, q, r)
  {
    hide LevelHash, ClimbPairs, TreePairs, FieldHash;
    if NoCollision(h, p, t, h(w.voterSecret, x.countryCode), w.pathElements, w.pathIndices) {
      CircuitSound(h, p, levels, t, x, w);
      assert false;
    }
    q, r :| q in ClimbPairs(h, p, h(w.voterSecret, x.countryCode), w.pathElements, w.pathIndices)
            && r in TreePairs(h, t) && Collide(h, q, r);
  }

  // ---------- one nullifier per leaf ----------

  /** An accepted proof: the public signals and the witness behind them. */
  datatype Proof = Proof(x: Statement, w: Secret) {
    function CommitmentPair(): Pair {
      (w.voterSecret, x.countryCode)
    }
  }

  /** A proof for the tree and the poll, none of whose path pairs collides with one of the tree. */
  ghost predicate Accepted(h: Hash, p: int, levels: nat, t: Tree, pollId: int, proof: Proof)
    requires IsPrime(p)
  {
    && Satisfied(h, p, levels, proof.x, proof.w) && proof.x.root == t.Digest(h) && proof.x.pollId == pollId
    && NoCollision(h, p, t, h(proof.w.voterSecret, proof.x.countryCode), proof.w.pathElements, proof.w.pathIndices)
  }

  /** Two proofs that name the same leaf have the same nullifier, unless the pairs behind their commitments collide. */
  lemma OneNullifierPerLeaf(h: Hash, p: int, levels: nat, t: Tree, pollId: int, a: Proof, b: Proof)
    requires IsPrime(p) && FieldHash(h, p) && t.Perfect(levels)
    requires Accepted(h, p, levels, t, pollId, a) && Accepted(h, p, levels, t, pollId, b)
    requires !Collide(h, a.CommitmentPair(), b.CommitmentPair())
    requires IndexOf(a.w.pathIndices) == IndexOf(b.w.pathIndices)
    ensures a.x.nullifier == b.x.nullifier && a.x.countryCode == b.x.countryCode
  {
    CircuitSound(h, p, levels, t, a.x, a.w);
    CircuitSound(h, p, levels, t, b.x, b.w);
    hide LevelHash, ClimbPairs, TreePairs, FieldHash, NoCollision, IndexConstraints, IndexOf, Path, Bits;
  }

  ghost predicate NoCommitmentsCollide(h: Hash, proofs: seq<Proof>) {
    forall i, j :: 0 <= i < j < |proofs| ==> !Collide(h, proofs[i].CommitmentPair(), proofs[j].CommitmentPair())
  }

  function NullifiersOf(proofs: seq<Proof>): set<int> {
    if proofs == [] then {} else NullifiersOf(proofs[..|proofs| - 1]) + {proofs[|proofs| - 1].x.nullifier}
  }

  function IndicesOf(proofs: seq<Proof>): set<int> {
    if proofs == [] then {} else IndicesOf(proofs[..|proofs| - 1]) + {IndexOf(proofs[|proofs| - 1].w.pathIndices)}
  }

  lemma {:induction false} IndexComesFrom(proofs: seq<Proof>, k: int) returns (i: nat)
    requires k in IndicesOf(proofs)
    ensures i < |proofs| && IndexOf(proofs[i].w.pathIndices) == k
    ensures proofs[i].x.nullifier in NullifiersOf(proofs)
  {
    var n := |proofs| - 1;
    if k == IndexOf(proofs[n].w.pathIndices) {
      i := n;
    } else {
      i := IndexComesFrom(proofs[..n], k);
    }
  }

  /** Every nullifier has a leaf to itself. */
  lemma {:induction false} NullifiersHaveLeaves(h: Hash, p: int, levels: nat, t: Tree, pollId: int, proofs: seq<Proof>)
    requires IsPrime(p) && FieldHash(h, p) && t.Perfect(levels) && NoCommitmentsCollide(h, proofs)
    requires forall i :: 0 <= i < |proofs| ==> Accepted(h, p, levels, t, pollId, proofs[i])
    ensures |NullifiersOf(proofs)| <= |IndicesOf(proofs)|
    ensures forall k :: k in IndicesOf(proofs) ==> 0 <= k < |t.Leaves()|
  {
    hide FieldHash, Accepted, Collide, IndexOf, Tree.Leaves, Tree.Perfect;
    if proofs != [] {
      var n := |proofs| - 1;
      NullifiersHaveLeaves(h, p, levels, t, pollId, proofs[..n]);
      IndexIsLeaf(h, p, levels, t, pollId, proofs[n]);
      var k := IndexOf(proofs[n].w.pathIndices);
      if k in IndicesOf(proofs[..n]) {
        var i := IndexComesFrom(proofs[..n], k);
        assert proofs[..n][i] == proofs[i];
        OneNullifierPerLeaf(h, p, levels, t, pollId, proofs[i], proofs[n]);
        assert NullifiersOf(proofs) == NullifiersOf(proofs[..n]) && IndicesOf(proofs) == IndicesOf(proofs[..n]);
      }
    }
  }

  lemma IndexIsLeaf(h: Hash, p: int, levels: nat, t: Tree, pollId: int, proof: Proof)
    requires IsPrime(p) && FieldHash(h, p) && t.Perfect(levels) && Accepted(h, p, levels, t, pollId, proof)
    ensures 0 <= IndexOf(proof.w.pathIndices) < |t.Leaves()|
  {
    CircuitSound(h, p, levels, t, proof.x, proof.w);
  }

  lemma {:induction false} BelowCount(s: set<int>, n: nat)
    requires forall k :: k in s ==> 0 <= k < n
    ensures |s| <= n
  {
    if n == 0 {
      assert s == {} by {
        forall k ensures k !in s { }
      }
    } else {
      BelowCount(s - {n - 1}, n - 1);
    }
  }

  /**
   A poll never has more nullifiers than the tree has leaves, however many proofs are accepted, unless hashed pairs
   collide.
   */
  lemma NullifiersAtMostLeaves(h: Hash, p: int, levels: nat, t: Tree, pollId: int, proofs: seq<Proof>)
    requires IsPrime(p) && FieldHash(h, p) && t.Perfect(levels) && NoCommitmentsCollide(h, proofs)
    requires forall i :: 0 <= i < |proofs| ==> Accepted(h, p, levels, t, pollId, proofs[i])
    ensures |NullifiersOf(proofs)| <= |t.Leaves()|
  {
    NullifiersHaveLeaves(h, p, levels, t, pollId, proofs);
    BelowCount(IndicesOf(proofs), |t.Leaves()|);
  }
}
