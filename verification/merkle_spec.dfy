/** The specification every other module is measured against: one plain binary Merkle
    tree of fixed depth over a map from leaf index to leaf hash. */
module MerkleSpec {

  datatype Option<+T> = None | Some(value: T)

  /** A hash value or a leaf value. */
  type Digest(==, !new)

  /** What a tree is built from. `empty` is the byte string of length zero, which is also
      what a nil slice contributes to a hash. */
  datatype Env = Env(maxDepth: nat, hash: (Digest, Digest) -> Digest, nilLeaf: Digest, empty: Digest) {
    predicate Valid() {
      0 < maxDepth < 64 && maxDepth % 4 == 0
    }
  }

  /** What a slot contributes to a hash. */
  function Raw(env: Env, slot: Option<Digest>): Digest {
    match slot
    case None => env.empty
    case Some(h) => h
  }

  /** A snapshot: the leaves that carry a value. */
  type LeafMap = map<nat, Digest>

  function LeafHash(env: Env, m: LeafMap, leaf: nat): Digest {
    if leaf in m then m[leaf] else env.nilLeaf
  }

  /** Hash of an empty subtree whose root is at `level`; out of range it is the nil slice. */
  function NilHash(env: Env, level: nat): Digest
    decreases env.maxDepth - level
  {
    if level > env.maxDepth then env.empty
    else if level == env.maxDepth then env.nilLeaf
    else env.hash(NilHash(env, level + 1), NilHash(env, level + 1))
  }

  /** Hash of the binary subtree at (level, path) of the snapshot `m`. */
  function BinHash(env: Env, level: nat, path: nat, m: LeafMap): Digest
    requires level <= env.maxDepth
    decreases env.maxDepth - level
  {
    if level == env.maxDepth then LeafHash(env, m, path)
    else env.hash(BinHash(env, level + 1, 2 * path, m), BinHash(env, level + 1, 2 * path + 1, m))
  }

  /** The path of the ancestor of `leaf` at `level`. */
  function PathAt(env: Env, leaf: nat, level: nat): nat
    decreases env.maxDepth - level
  {
    if level >= env.maxDepth then leaf else PathAt(env, leaf, level + 1) / 2
  }

  /** The other one of a pair of neighbours. */
  function Xor1(n: nat): nat {
    if n % 2 == 0 then n + 1 else n - 1
  }

  function Pow2(n: nat): nat {
    if n == 0 then 1 else 2 * Pow2(n - 1)
  }

  /** A leaf index is below 2^maxDepth exactly when its ancestor at level 0 is the root. */
  lemma {:induction false} ValidLeafHasRoot(env: Env, leaf: nat, level: nat)
    requires level <= env.maxDepth
    ensures PathAt(env, leaf, level) < Pow2(level) <==> leaf < Pow2(env.maxDepth)
    decreases env.maxDepth - level
  {
    if level < env.maxDepth {
      ValidLeafHasRoot(env, leaf, level + 1);
    }
  }

  /** A subtree hash depends only on the leaves below it. */
  lemma {:induction false} BinHashFrame(env: Env, level: nat, path: nat, m: LeafMap, m': LeafMap)
    requires level <= env.maxDepth
    requires forall k: nat :: PathAt(env, k, level) == path ==> LeafHash(env, m, k) == LeafHash(env, m', k)
    ensures BinHash(env, level, path, m) == BinHash(env, level, path, m')
    decreases env.maxDepth - level
  {
    if level == env.maxDepth {
      assert PathAt(env, path, level) == path;
    } else {
      BinHashFrame(env, level + 1, 2 * path, m, m');
      BinHashFrame(env, level + 1, 2 * path + 1, m, m');
    }
  }

  lemma {:induction false} BinHashEmpty(env: Env, level: nat, path: nat)
    requires level <= env.maxDepth
    ensures BinHash(env, level, path, map[]) == NilHash(env, level)
    decreases env.maxDepth - level
  {
    if level < env.maxDepth {
      BinHashEmpty(env, level + 1, 2 * path);
      BinHashEmpty(env, level + 1, 2 * path + 1);
    }
  }

  /** A node of the tree as it is stored: sixteen-way, so only every fourth level. */
  datatype Key = Key(depth: nat, path: nat) {
    function Child(i: nat): Key {
      Key(depth + 4, 16 * path + i)
    }

    /** The key of the parent as the source computes it: the depth is a byte, so the
        parent of the root is at depth 252, where no node is. */
    function Parent(): Key {
      Key(if depth >= 4 then depth - 4 else depth + 252, path / 16)
    }
  }

  const ROOT_KEY: Key := Key(0, 0)

  predicate KeyOK(env: Env, key: Key) {
    key.depth % 4 == 0 && key.depth <= env.maxDepth
  }

  predicate Interior(env: Env, key: Key) {
    key.depth % 4 == 0 && key.depth + 4 <= env.maxDepth
  }

  function KeyHash(env: Env, key: Key, m: LeafMap): Digest
    requires key.depth <= env.maxDepth
  {
    BinHash(env, key.depth, key.path, m)
  }

  /** `key` lies in the subtree of `top`. */
  predicate Under(key: Key, top: Key)
    decreases key.depth
  {
    key == top || (key.depth >= top.depth + 4 && Under(Key(key.depth - 4, key.path / 16), top))
  }

  lemma {:induction false} UnderTransitive(a: Key, b: Key, c: Key)
    requires Under(a, b) && Under(b, c)
    ensures Under(a, c)
    decreases a.depth
  {
    if a != b {
      UnderTransitive(Key(a.depth - 4, a.path / 16), b, c);
      UnderDeeper(b, c);
    }
  }

  lemma {:induction false} UnderDeeper(a: Key, b: Key)
    requires Under(a, b)
    ensures a.depth >= b.depth && (a.depth == b.depth ==> a == b)
    decreases a.depth
  {
    if a != b {
      UnderDeeper(Key(a.depth - 4, a.path / 16), b);
    }
  }

  lemma {:induction false} UnderDisjoint(key: Key, a: Key, b: Key)
    requires Under(key, a) && Under(key, b) && a.depth == b.depth
    ensures a == b
    decreases key.depth
  {
    if key != a && key != b {
      UnderDisjoint(Key(key.depth - 4, key.path / 16), a, b);
    } else {
      UnderDeeper(key, a);
      UnderDeeper(key, b);
    }
  }

  lemma ChildUnder(top: Key, i: nat)
    requires i < 16
    ensures Under(top.Child(i), top) && !Under(top, top.Child(i))
  {
    assert Key(top.Child(i).depth - 4, top.Child(i).path / 16) == top;
    if Under(top, top.Child(i)) {
      UnderDeeper(top, top.Child(i));
    }
  }

  function LeafKey(env: Env, leaf: nat): Key {
    Key(env.maxDepth, leaf)
  }

  /** The node of the path to `leaf` at `depth`. */
  function PathKey(env: Env, leaf: nat, depth: nat): Key {
    Key(depth, PathAt(env, leaf, depth))
  }

  lemma PathAtParent(env: Env, leaf: nat, depth: nat)
    requires depth + 4 <= env.maxDepth
    ensures PathAt(env, leaf, depth) == PathAt(env, leaf, depth + 4) / 16
    ensures PathKey(env, leaf, depth + 4) == PathKey(env, leaf, depth).Child(PathAt(env, leaf, depth + 4) % 16)
  {
    var p4 := PathAt(env, leaf, depth + 4);
    assert PathAt(env, leaf, depth + 3) == p4 / 2;
    assert PathAt(env, leaf, depth + 2) == p4 / 2 / 2;
    assert PathAt(env, leaf, depth + 1) == p4 / 2 / 2 / 2;
    assert PathAt(env, leaf, depth) == p4 / 2 / 2 / 2 / 2;
  }

  /** A leaf is below a node exactly when the node is on the leaf's path. */
  lemma {:induction false} LeafUnder(env: Env, leaf: nat, d: nat, top: Key)
    requires d % 4 == 0 && KeyOK(env, top) && top.depth <= d <= env.maxDepth
    ensures Under(PathKey(env, leaf, d), top) <==> PathAt(env, leaf, top.depth) == top.path
    decreases d
  {
    if d > top.depth {
      PathAtParent(env, leaf, d - 4);
      LeafUnder(env, leaf, d - 4, top);
    }
  }
}
