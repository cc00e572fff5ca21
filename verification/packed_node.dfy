/** The four binary levels packed in one stored node: sixteen child hashes below a heap of
    fourteen internal hashes, two at the first level, four at the second, eight at the third. */
module PackedNode {
  import opened MerkleSpec

  type HashFn = (Digest, Digest) -> Digest

  /** The hash that belongs in slot `i` of the heap over the child hashes `ch`. */
  function Slot(hash: HashFn, ch: seq<Digest>, i: nat): Digest
    requires |ch| == 16 && i < 14
    decreases 14 - i
  {
    if i >= 6 then hash(ch[2 * i - 12], ch[2 * i - 11])
    else hash(Slot(hash, ch, 2 * i + 2), Slot(hash, ch, 2 * i + 3))
  }

  lemma LowSlot(hash: HashFn, ch: seq<Digest>, i: nat)
    requires |ch| == 16 && i < 8
    ensures Slot(hash, ch, 6 + i) == hash(ch[2 * i], ch[2 * i + 1])
  {
  }

  lemma HighSlot(hash: HashFn, ch: seq<Digest>, i: nat)
    requires |ch| == 16 && i < 6
    ensures Slot(hash, ch, i) == hash(Slot(hash, ch, 2 * i + 2), Slot(hash, ch, 2 * i + 3))
  {
  }

  function Top(hash: HashFn, ch: seq<Digest>): Digest
    requires |ch| == 16
  {
    hash(Slot(hash, ch, 0), Slot(hash, ch, 1))
  }

  /** All fourteen slots. */
  function Pack(hash: HashFn, ch: seq<Digest>): (r: seq<Option<Digest>>)
    requires |ch| == 16
    ensures |r| == 14
  {
    seq(14, i requires 0 <= i < 14 => Some(Slot(hash, ch, i)))
  }

  /** The hashes the sixteen children of `key` have in the snapshot `m`. */
  function ChildSpec(env: Env, key: Key, m: LeafMap): (r: seq<Digest>)
    requires key.depth + 4 <= env.maxDepth
    ensures |r| == 16
  {
    seq(16, i requires 0 <= i < 16 => BinHash(env, key.depth + 4, 16 * key.path + i, m))
  }

  function PackSpec(env: Env, key: Key, m: LeafMap): seq<Option<Digest>>
    requires key.depth + 4 <= env.maxDepth
  {
    Pack(env.hash, ChildSpec(env, key, m))
  }

  /** Where slot `i` of a node sits in the binary tree, relative to the node. */
  function SlotLevel(i: nat): (r: nat)
    requires i < 14
    ensures 1 <= r <= 3
  {
    if i < 2 then 1 else if i < 6 then 2 else 3
  }

  function SlotPath(path: nat, i: nat): nat
    requires i < 14
  {
    if i < 2 then 2 * path + i else if i < 6 then 4 * path + (i - 2) else 8 * path + (i - 6)
  }

  /** Every slot holds the hash of the binary subtree it stands for, and the top hash is
      the hash of the node's own subtree. */
  lemma {:induction false} SlotIsBinHash(env: Env, key: Key, m: LeafMap, i: nat)
    requires key.depth + 4 <= env.maxDepth && i < 14
    ensures Slot(env.hash, ChildSpec(env, key, m), i)
         == BinHash(env, key.depth + SlotLevel(i), SlotPath(key.path, i), m)
    decreases 14 - i
  {
    hide Slot, BinHash;
    var ch := ChildSpec(env, key, m);
    var (l, p) := (key.depth + SlotLevel(i), SlotPath(key.path, i));
    BinHashStep(env, l, p, m);
    if i >= 6 {
      LowSlot(env.hash, ch, i - 6);
      assert ch[2 * (i - 6)] == BinHash(env, l + 1, 2 * p, m);
      assert ch[2 * (i - 6) + 1] == BinHash(env, l + 1, 2 * p + 1, m);
    } else {
      HighSlot(env.hash, ch, i);
      SlotIsBinHash(env, key, m, 2 * i + 2);
      SlotIsBinHash(env, key, m, 2 * i + 3);
    }
  }

  lemma BinHashStep(env: Env, level: nat, path: nat, m: LeafMap)
    requires level < env.maxDepth
    ensures BinHash(env, level, path, m) == env.hash(BinHash(env, level + 1, 2 * path, m), BinHash(env, level + 1, 2 * path + 1, m))
  {
  }

  lemma TopIsBinHash(env: Env, key: Key, m: LeafMap)
    requires key.depth + 4 <= env.maxDepth
    ensures Top(env.hash, ChildSpec(env, key, m)) == KeyHash(env, key, m)
  {
    SlotIsBinHash(env, key, m, 0);
    SlotIsBinHash(env, key, m, 1);
  }

  /** The slots on the way from child `nibble` to the top: the source's marking table. */
  predicate OnPath(nibble: nat, i: nat)
    requires nibble < 16 && i < 14
  {
    i == nibble / 8 || i == 2 + nibble / 4 || i == 6 + nibble / 2
  }

  /** A slot is on a child's way up exactly when the child is below it. */
  lemma OnPathIsAncestor(nibble: nat, i: nat, path: nat)
    requires nibble < 16 && i < 14
    ensures OnPath(nibble, i) <==>
      SlotPath(path, i) == (if i < 2 then (16 * path + nibble) / 8
                            else if i < 6 then (16 * path + nibble) / 4
                            else (16 * path + nibble) / 2)
  {
  }

  lemma {:induction false} SlotFrame(hash: HashFn, ch: seq<Digest>, nibble: nat, x: Digest, i: nat)
    requires |ch| == 16 && nibble < 16 && i < 14 && !OnPath(nibble, i)
    ensures Slot(hash, ch[nibble := x], i) == Slot(hash, ch, i)
    decreases 14 - i
  {
    if i < 6 {
      SlotFrame(hash, ch, nibble, x, 2 * i + 2);
      SlotFrame(hash, ch, nibble, x, 2 * i + 3);
    }
  }
}
