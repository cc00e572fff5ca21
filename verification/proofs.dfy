/** Merkle proofs: the sibling hashes on the way from a leaf to the root. */
module Proofs {
  import opened MerkleSpec
  import opened PackedNode
  import opened TreeNodes

  type Proof = seq<Digest>

  /** The hash reached from `node`, the ancestor of `key` at `level`, with the given siblings. */
  function Climb(env: Env, key: nat, level: nat, node: Digest, proof: Proof): Digest
    requires |proof| <= level
    decreases level
  {
    if proof == [] then node
    else
      var up := if PathAt(env, key, level) % 2 == 0 then env.hash(node, proof[0]) else env.hash(proof[0], node);
      Climb(env, key, level - 1, up, proof[1..])
  }

  /** The sibling of the ancestor of `key` at `level`. */
  function SiblingHash(env: Env, key: nat, level: nat, m: LeafMap): Digest
    requires level <= env.maxDepth
  {
    BinHash(env, level, Xor1(PathAt(env, key, level)), m)
  }

  /** The siblings from the leaf level up to level one. */
  function Siblings(env: Env, key: nat, m: LeafMap): (r: Proof)
    ensures |r| == env.maxDepth
  {
    seq(env.maxDepth, i requires 0 <= i < env.maxDepth => SiblingHash(env, key, env.maxDepth - i, m))
  }

  function NilProof(env: Env): (r: Proof)
    ensures |r| == env.maxDepth
  {
    seq(env.maxDepth, i requires 0 <= i < env.maxDepth => NilHash(env, env.maxDepth - i))
  }

  function TreeHash(env: Env, m: LeafMap): Digest {
    BinHash(env, 0, 0, m)
  }

  /** The proof a tree holding `m` gives out. */
  function ProofFor(env: Env, key: nat, m: LeafMap): Proof {
    if TreeHash(env, m) == NilHash(env, 0) then NilProof(env) else Siblings(env, key, m)
  }

  /** What a proof consists of, leaf level first: in an empty tree the nil hashes, otherwise the
      hashes of the siblings. */
  lemma ProofEntries(env: Env, key: nat, m: LeafMap)
    ensures |ProofFor(env, key, m)| == env.maxDepth && forall i :: 0 <= i < env.maxDepth ==>
      ProofFor(env, key, m)[i] == if TreeHash(env, m) == NilHash(env, 0) then NilHash(env, env.maxDepth - i)
                                  else BinHash(env, env.maxDepth - i, Xor1(PathAt(env, key, env.maxDepth - i)), m)
  {
    forall i | 0 <= i < env.maxDepth ensures Siblings(env, key, m)[i] == SiblingHash(env, key, env.maxDepth - i, m) {
    }
  }

  /** The leaf hash a proof is checked against; an empty value counts as no value. */
  function ClaimedHash(env: Env, key: nat, now: LeafMap, committed: LeafMap): Digest {
    if TreeHash(env, now) == NilHash(env, 0) || LeafHash(env, committed, key) == env.empty then env.nilLeaf
    else LeafHash(env, committed, key)
  }

  /** What a verification accepts, with committed values and the pending root. */
  ghost predicate Accepts(env: Env, key: nat, now: LeafMap, committed: LeafMap, proof: Proof) {
    && key < Pow2(env.maxDepth)
    && |proof| == env.maxDepth
    && Climb(env, key, env.maxDepth, ClaimedHash(env, key, now, committed), proof) == TreeHash(env, now)
  }

  ghost predicate Injective(env: Env) {
    forall a, b, c, d :: env.hash(a, b) == env.hash(c, d) ==> a == c && b == d
  }

  lemma {:induction false} ClimbSiblings(env: Env, key: nat, level: nat, m: LeafMap)
    requires level <= env.maxDepth
    ensures Climb(env, key, level, BinHash(env, level, PathAt(env, key, level), m), Siblings(env, key, m)[env.maxDepth - level..])
         == BinHash(env, 0, PathAt(env, key, 0), m)
    decreases level
  {
    if level > 0 {
      var rest := Siblings(env, key, m)[env.maxDepth - level..];
      assert rest[1..] == Siblings(env, key, m)[env.maxDepth - (level - 1)..];
      assert rest[0] == SiblingHash(env, key, level, m);
      ClimbSiblings(env, key, level - 1, m);
    }
  }

  lemma NilIsSiblings(env: Env, key: nat)
    ensures NilProof(env) == Siblings(env, key, map[])
  {
    forall i | 0 <= i < env.maxDepth ensures NilProof(env)[i] == Siblings(env, key, map[])[i] {
      BinHashEmpty(env, env.maxDepth - i, Xor1(PathAt(env, key, env.maxDepth - i)));
      assert Siblings(env, key, map[])[i] == SiblingHash(env, key, env.maxDepth - i, map[]);
    }
  }

  /** The siblings of a tree lead from any key's true leaf hash to the root. */
  lemma SiblingsLeadToRoot(env: Env, key: nat, m: LeafMap)
    requires key < Pow2(env.maxDepth)
    ensures Climb(env, key, env.maxDepth, LeafHash(env, m, key), Siblings(env, key, m)) == TreeHash(env, m)
  {
    assert Siblings(env, key, m)[0..] == Siblings(env, key, m);
    ClimbSiblings(env, key, env.maxDepth, m);
    ValidLeafHasRoot(env, key, 0);
  }

  /** Completeness: a tree holding `now` accepts the proof it gives out for a key, present or
      absent, if the value the check takes for the committed one is the value pending. */
  lemma ProofComplete(env: Env, key: nat, now: LeafMap, committed: LeafMap)
    requires key < Pow2(env.maxDepth)
    requires TreeHash(env, now) == NilHash(env, 0) || ClaimedHash(env, key, now, committed) == LeafHash(env, now, key)
    ensures Accepts(env, key, now, committed, ProofFor(env, key, now))
  {
    SiblingsLeadToRoot(env, key, now);
    SiblingsLeadToRoot(env, key, map[]);
    NilIsSiblings(env, key);
    BinHashEmpty(env, 0, 0);
  }

  /** With an injective hash a proof and a leaf hash can be read back from the hash reached. */
  lemma {:induction false} ClimbInjective(env: Env, key: nat, level: nat, a: Digest, p: Proof, b: Digest, q: Proof)
    requires Injective(env) && |p| == |q| <= level
    requires Climb(env, key, level, a, p) == Climb(env, key, level, b, q)
    ensures a == b && p == q
    decreases level
  {
    if p != [] {
      var odd := PathAt(env, key, level) % 2 != 0;
      var ua := if odd then env.hash(p[0], a) else env.hash(a, p[0]);
      var ub := if odd then env.hash(q[0], b) else env.hash(b, q[0]);
      ClimbInjective(env, key, level - 1, ua, p[1..], ub, q[1..]);
      assert p == [p[0]] + p[1..] && q == [q[0]] + q[1..];
    }
  }

  /** Uniqueness: with an injective hash the proof a tree gives out is the only one it accepts,
      whatever is pending, and it accepts it for the pending value only. */
  lemma ProofUnique(env: Env, key: nat, now: LeafMap, committed: LeafMap, proof: Proof)
    requires Injective(env) && Accepts(env, key, now, committed, proof)
    ensures proof == ProofFor(env, key, now)
    ensures ClaimedHash(env, key, now, committed) == LeafHash(env, now, key)
  {
    SiblingsLeadToRoot(env, key, now);
    SiblingsLeadToRoot(env, key, map[]);
    NilIsSiblings(env, key);
    BinHashEmpty(env, 0, 0);
    ClimbInjective(env, key, env.maxDepth, ClaimedHash(env, key, now, committed), proof, LeafHash(env, now, key), Siblings(env, key, now));
    if TreeHash(env, now) == NilHash(env, 0) {
      ClimbInjective(env, key, env.maxDepth, env.nilLeaf, proof, env.nilLeaf, NilProof(env));
    }
  }

  /** With an injective hash the tree's own proof of a key is accepted exactly if the value
      the check takes for the committed one is the value pending. */
  lemma ProofCompleteExactly(env: Env, key: nat, now: LeafMap, committed: LeafMap)
    requires Injective(env) && key < Pow2(env.maxDepth)
    ensures Accepts(env, key, now, committed, ProofFor(env, key, now)) <==>
      ClaimedHash(env, key, now, committed) == LeafHash(env, now, key)
  {
    if ClaimedHash(env, key, now, committed) == LeafHash(env, now, key) {
      ProofComplete(env, key, now, committed);
    }
    if Accepts(env, key, now, committed, ProofFor(env, key, now)) {
      ProofUnique(env, key, now, committed, ProofFor(env, key, now));
    }
  }

  /** With nothing pending it fails for exactly the keys that carry the empty value in a tree
      that is not empty and whose nil leaf is not the empty value. */
  lemma CommittedProofExactly(env: Env, key: nat, m: LeafMap)
    requires Injective(env) && key < Pow2(env.maxDepth)
    ensures Accepts(env, key, m, m, ProofFor(env, key, m)) <==>
      LeafHash(env, m, key) != env.empty || env.nilLeaf == env.empty || TreeHash(env, m) == NilHash(env, 0)
  {
    ProofCompleteExactly(env, key, m, m);
    if TreeHash(env, m) == NilHash(env, 0) {
      ProofComplete(env, key, m, m);
    }
  }

  /** A change pending on the key itself: after committing `a` and setting `b`, no proof of the
      key is accepted at all. */
  lemma PendingValueFails(env: Env, key: nat, m: LeafMap, a: Digest, b: Digest, proof: Proof)
    requires Injective(env) && key < Pow2(env.maxDepth)
    requires a != b && a != env.empty && b != env.nilLeaf
    ensures !Accepts(env, key, m[key := b], m[key := a], proof)
  {
    if Accepts(env, key, m[key := b], m[key := a], proof) {
      ProofUnique(env, key, m[key := b], m[key := a], proof);
    }
  }

  /** A change pending on another key does no harm. */
  lemma PendingElsewhere(env: Env, key: nat, committed: LeafMap, other: nat, val: Digest)
    requires key < Pow2(env.maxDepth) && other != key && LeafHash(env, committed, key) != env.empty
    ensures Accepts(env, key, committed[other := val], committed, ProofFor(env, key, committed[other := val]))
  {
    ProofComplete(env, key, committed[other := val], committed);
  }

  /** With an injective hash a subtree's hash fixes every leaf below it. */
  lemma {:induction false} HashFixesLeaves(env: Env, level: nat, path: nat, a: LeafMap, b: LeafMap, k: nat)
    requires Injective(env) && level <= env.maxDepth && PathAt(env, k, level) == path
    requires BinHash(env, level, path, a) == BinHash(env, level, path, b)
    ensures LeafHash(env, a, k) == LeafHash(env, b, k)
    decreases env.maxDepth - level
  {
    if level < env.maxDepth {
      HashFixesLeaves(env, level + 1, PathAt(env, k, level + 1), a, b, k);
    }
  }

  lemma RootFixesLeaves(env: Env, a: LeafMap, b: LeafMap, k: nat)
    requires Injective(env) && k < Pow2(env.maxDepth) && TreeHash(env, a) == TreeHash(env, b)
    ensures LeafHash(env, a, k) == LeafHash(env, b, k)
  {
    ValidLeafHasRoot(env, k, 0);
    HashFixesLeaves(env, 0, 0, a, b, k);
  }

  /** With an injective hash, no proof lets a tree accept a leaf hash other than its own. */
  lemma ProofBinds(env: Env, key: nat, m: LeafMap, claimed: Digest, proof: Proof)
    requires Injective(env) && key < Pow2(env.maxDepth) && |proof| == env.maxDepth
    requires Climb(env, key, env.maxDepth, claimed, proof) == TreeHash(env, m)
    ensures claimed == LeafHash(env, m, key)
  {
    SiblingsLeadToRoot(env, key, m);
    ClimbInjective(env, key, env.maxDepth, claimed, proof, LeafHash(env, m, key), Siblings(env, key, m));
  }

  /** The four bits of a nibble are the four steps of the binary path. */
  lemma NibbleBits(env: Env, key: nat, d: nat) returns (a: nat, b: nat, c: nat, e: nat)
    requires d + 4 <= env.maxDepth
    ensures a < 2 && b < 2 && c < 2 && e < 2
    ensures PathAt(env, key, d + 4) % 16 == 8 * a + 4 * b + 2 * c + e
    ensures PathAt(env, key, d + 1) == 2 * PathAt(env, key, d) + a
    ensures PathAt(env, key, d + 2) == 2 * PathAt(env, key, d + 1) + b
    ensures PathAt(env, key, d + 3) == 2 * PathAt(env, key, d + 2) + c
    ensures PathAt(env, key, d + 4) == 2 * PathAt(env, key, d + 3) + e
  {
    a, b := PathAt(env, key, d + 1) % 2, PathAt(env, key, d + 2) % 2;
    c, e := PathAt(env, key, d + 3) % 2, PathAt(env, key, d + 4) % 2;
    Halved(PathAt(env, key, d + 1));
    Halved(PathAt(env, key, d + 2));
    Halved(PathAt(env, key, d + 3));
    Halved(PathAt(env, key, d + 4));
    LowDigit(PathAt(env, key, d), 8 * a + 4 * b + 2 * c + e);
  }

  lemma Halved(p: nat)
    ensures p == 2 * (p / 2) + p % 2
  {
  }

  lemma LowDigit(q: nat, r: nat)
    requires r < 16
    ensures (16 * q + r) % 16 == r && (16 * q + r) / 16 == q
  {
  }

  lemma SiblingPath(path: nat)
    ensures Xor1(path) == 16 * (path / 16) + Xor1(path % 16) && Xor1(path % 16) < 16
  {
    var q, r := path / 16, path % 16;
    assert path == 2 * (8 * q) + r;
    assert path % 2 == r % 2 by { SameParity(8 * q, r); }
  }

  lemma SameParity(h: nat, r: nat)
    ensures (2 * h + r) % 2 == r % 2
  {
  }

  /** The sibling of a slot on the way up is the slot of the sibling subtree. */
  lemma SiblingSlot(env: Env, key: nat, d: nat, j: nat)
    requires d % 4 == 0 && d + 4 <= env.maxDepth && j < 3
    ensures var nibble := PathAt(env, key, d + 4) % 16;
      var at := if j == 0 then nibble / 8 else if j == 1 then 2 + nibble / 4 else 6 + nibble / 2;
      && at < 14 && Xor1(at) < 14
      && SlotLevel(Xor1(at)) == j + 1
      && SlotPath(PathAt(env, key, d), Xor1(at)) == Xor1(PathAt(env, key, d + j + 1))
  {
    var a, b, c, e := NibbleBits(env, key, d);
    var nibble := PathAt(env, key, d + 4) % 16;
    assert nibble / 8 == a && nibble / 4 == 2 * a + b && nibble / 2 == 4 * a + 2 * b + c;
  }

  /** What that slot holds is the sibling hash of the level. */
  lemma SiblingInSlot(env: Env, key: nat, d: nat, j: nat, m: LeafMap)
    requires d % 4 == 0 && d + 4 <= env.maxDepth && j < 3
    ensures var nibble := PathAt(env, key, d + 4) % 16;
      var at := if j == 0 then nibble / 8 else if j == 1 then 2 + nibble / 4 else 6 + nibble / 2;
      Xor1(at) < 14 && PackSpec(env, PathKey(env, key, d), m)[Xor1(at)] == Some(SiblingHash(env, key, d + j + 1, m))
  {
    hide PathAt, BinHash, Slot;
    SiblingSlot(env, key, d, j);
    var nibble := PathAt(env, key, d + 4) % 16;
    var at := if j == 0 then nibble / 8 else if j == 1 then 2 + nibble / 4 else 6 + nibble / 2;
    SlotIsBinHash(env, PathKey(env, key, d), m, Xor1(at));
  }

  /** The direction bits computed from a sixteen-way path are the bits of the binary path. */
  lemma DirectionBits(env: Env, key: nat, d: nat)
    requires d % 4 == 0 && d + 4 <= env.maxDepth
    ensures var path := PathAt(env, key, d + 4);
      && path / 16 % 2 == PathAt(env, key, d) % 2
      && path % 16 / 8 % 2 == PathAt(env, key, d + 1) % 2
      && path % 16 / 4 % 2 == PathAt(env, key, d + 2) % 2
      && path % 16 / 2 % 2 == PathAt(env, key, d + 3) % 2
  {
    var a, b, c, e := NibbleBits(env, key, d);
    var nibble := PathAt(env, key, d + 4) % 16;
    assert nibble / 8 == a && nibble / 4 == 2 * a + b && nibble / 2 == 4 * a + 2 * b + c;
    PathAtParent(env, key, d);
  }

  /** Swaps from both ends towards the middle. */
  method Reverse<T>(value: seq<T>) returns (r: seq<T>)
    ensures |r| == |value| && forall k :: 0 <= k < |r| ==> r[k] == value[|value| - 1 - k]
  {
    r := value;
    var i, j := 0, |value| - 1;
    while i < j
      invariant 0 <= i <= |value| && j == |value| - 1 - i && |r| == |value| && i <= j + 1
      invariant forall k :: 0 <= k < i || j < k < |r| ==> r[k] == value[|value| - 1 - k]
      invariant forall k :: i <= k <= j ==> r[k] == value[k]
    {
      r := r[i := r[j]][j := r[i]];
      i, j := i + 1, j - 1;
    }
  }
}
