/** Setting one leaf: the path from the leaf to the root is copied and re-hashed, every other
    node of the pending tree is shared with what was there before. */
module PendingUpdate {
  import opened MerkleSpec
  import opened PackedNode
  import opened VersionList
  import opened Database
  import opened History
  import opened TreeNodes
  import opened NodeState
  import opened SharedLists

  function PathKeys(env: Env, leaf: nat): set<Key> {
    set j | 0 <= j <= env.maxDepth / 4 :: PathKey(env, leaf, 4 * j)
  }

  lemma PathKeysAre(env: Env, leaf: nat, id: Key)
    requires env.Valid()
    ensures id in PathKeys(env, leaf) <==> KeyOK(env, id) && PathAt(env, leaf, id.depth) == id.path
  {
    if KeyOK(env, id) && PathAt(env, leaf, id.depth) == id.path {
      assert id == PathKey(env, leaf, 4 * (id.depth / 4));
    }
  }

  /** The journal once the nodes of a path have been replaced. */
  function WithPath(env: Env, journal: Journal, leaf: nat, nodes: seq<TreeNode>): Journal
    requires |nodes| == env.maxDepth / 4 + 1
  {
    map id | id in journal.Keys + PathKeys(env, leaf) ::
      if id in PathKeys(env, leaf) then nodes[id.depth / 4] else journal[id]
  }

  lemma WithPathKeys(env: Env, journal: Journal, leaf: nat, nodes: seq<TreeNode>)
    requires |nodes| == env.maxDepth / 4 + 1
    ensures WithPath(env, journal, leaf, nodes).Keys == journal.Keys + PathKeys(env, leaf)
  {
  }

  /** The same while only the nodes from depth `d` on have been replaced. */
  function WithPathFrom(env: Env, journal: Journal, leaf: nat, nodes: seq<TreeNode>, d: nat): Journal
    requires |nodes| == env.maxDepth / 4 + 1
  {
    var all := WithPath(env, journal, leaf, nodes);
    map id | id in all && (id in journal || id.depth >= d) :: if id.depth >= d then all[id] else journal[id]
  }

  lemma WithPathStep(env: Env, journal: Journal, leaf: nat, nodes: seq<TreeNode>, i: nat)
    requires env.Valid() && |nodes| == env.maxDepth / 4 + 1 && i < |nodes|
    ensures WithPathFrom(env, journal, leaf, nodes, 4 * i)
         == WithPathFrom(env, journal, leaf, nodes, 4 * i + 4)[PathKey(env, leaf, 4 * i) := nodes[i]]
  {
    var id := PathKey(env, leaf, 4 * i);
    var a := WithPathFrom(env, journal, leaf, nodes, 4 * i);
    var b := WithPathFrom(env, journal, leaf, nodes, 4 * i + 4)[id := nodes[i]];
    forall k
      ensures k in a <==> k in b
      ensures k in a ==> a[k] == b[k]
    {
      if k in PathKeys(env, leaf) { PathKeysAre(env, leaf, k); }
      PathKeysAre(env, leaf, id);
    }
  }

  lemma WithPathEnds(env: Env, journal: Journal, leaf: nat, nodes: seq<TreeNode>)
    requires env.Valid() && |nodes| == env.maxDepth / 4 + 1
    ensures WithPathFrom(env, journal, leaf, nodes, env.maxDepth + 4) == journal
    ensures WithPathFrom(env, journal, leaf, nodes, 0) == WithPath(env, journal, leaf, nodes)
  {
    forall k | k in PathKeys(env, leaf) ensures k.depth <= env.maxDepth {
      PathKeysAre(env, leaf, k);
    }
    assert WithPathFrom(env, journal, leaf, nodes, env.maxDepth + 4).Keys == journal.Keys;
  }

  /** State `t` follows state `s` by setting one leaf for version `ver`. */
  ghost predicate SetsLeaf(s: TreeState, t: TreeState, leaf: nat, val: Digest, nodes: seq<TreeNode>) {
    && s.env.Valid() && PathAt(s.env, leaf, 0) == 0 && |nodes| == s.env.maxDepth / 4 + 1
    && (forall j :: 0 <= j < |nodes| ==> nodes[j].Id() == PathKey(s.env, leaf, 4 * j))
    && t == s.(now := s.now[leaf := val], ver := t.ver, journal := WithPath(s.env, s.journal, leaf, nodes))
    && |s.hist| <= t.ver && (s.journal != map[] ==> t.ver == s.ver)
  }

  lemma SetReady(s: TreeState, t: TreeState, leaf: nat, val: Digest, nodes: seq<TreeNode>)
    requires s.Ready() && SetsLeaf(s, t, leaf, val, nodes)
    ensures t.Ready()
  {
    hide PathAt, DbOK, PathKeys;
    forall id | id in t.journal
      ensures ParentIn(t.env, t.journal.Keys, id) && t.journal[id].Id() == id
    {
      SetParent(s, t, leaf, val, nodes, id);
    }
    forall k: nat | LeafKey(t.env, k) !in t.journal
      ensures LeafHash(t.env, t.Last(), k) == LeafHash(t.env, t.now, k)
    {
      PathKeysAre(s.env, leaf, LeafKey(t.env, k));
      PathAtLeaf(s.env, k);
    }
  }

  lemma PathAtLeaf(env: Env, k: nat)
    ensures PathAt(env, k, env.maxDepth) == k
  {
  }

  lemma SetParent(s: TreeState, t: TreeState, leaf: nat, val: Digest, nodes: seq<TreeNode>, id: Key)
    requires s.Ready() && SetsLeaf(s, t, leaf, val, nodes) && id in t.journal
    ensures ParentIn(t.env, t.journal.Keys, id) && t.journal[id].Id() == id
  {
    hide PathAt, DbOK, PathKeys, Agree;
    if id in PathKeys(s.env, leaf) {
      PathKeysAre(s.env, leaf, id);
      assert nodes[id.depth / 4].Id() == PathKey(s.env, leaf, 4 * (id.depth / 4));
      if id.depth > 0 {
        PathAtParent(s.env, leaf, id.depth - 4);
        PathKeysAre(s.env, leaf, PathKey(s.env, leaf, id.depth - 4));
      }
    } else {
      assert ParentIn(s.env, s.journal.Keys, id);
    }
  }

  /** Setting a leaf changes no hash and no slot off its path. */
  lemma OffPath(env: Env, m: LeafMap, leaf: nat, val: Digest, id: Key)
    requires env.Valid() && KeyOK(env, id) && PathAt(env, leaf, id.depth) != id.path
    ensures KeyHash(env, id, m[leaf := val]) == KeyHash(env, id, m)
    ensures Interior(env, id) ==> ChildSpec(env, id, m[leaf := val]) == ChildSpec(env, id, m)
  {
    SameBelow(env, id, m, m[leaf := val]);
  }

  /** The nodes off the path stay good nodes of the new pending tree. */
  lemma OffPathStays(s: TreeState, t: TreeState, leaf: nat, val: Digest, nodes: seq<TreeNode>, n: TreeNode)
    requires SetsLeaf(s, t, leaf, val, nodes) && s.PendingNode(n)
    requires n.Id() in s.journal && n.Id() !in PathKeys(s.env, leaf)
    ensures t.PendingNode(n)
  {
    var id := n.Id();
    PathKeysAre(s.env, leaf, id);
    OffPath(s.env, s.now, leaf, val, id);
    if Interior(s.env, id) {
      forall i | 0 <= i < 16 ensures t.ChildPending(id.Child(i), n.children[i]) {
        assert s.ChildPending(id.Child(i), n.children[i]);
        OffPathChild(s.env, leaf, id, i);
      }
    }
  }

  lemma OffPathChild(env: Env, leaf: nat, id: Key, i: nat)
    requires env.Valid() && Interior(env, id) && i < 16
    ensures id.Child(i) in PathKeys(env, leaf) ==> id in PathKeys(env, leaf) && i == PathAt(env, leaf, id.depth + 4) % 16
  {
    PathKeysAre(env, leaf, id);
    PathKeysAre(env, leaf, id.Child(i));
    PathAtParent(env, leaf, id.depth);
  }

  /** Publishing the new hash on the pending list of a path node. */
  lemma PublishedList(s: TreeState, t: TreeState, leaf: nat, val: Digest, nodes: seq<TreeNode>, id: Key, h: Digest)
    requires s.Ready() && SetsLeaf(s, t, leaf, val, nodes) && id in PathKeys(s.env, leaf)
    requires KeyOK(s.env, id) && h == KeyHash(s.env, id, t.now)
    ensures Publish(s.Versions(id), VersionInfo(t.ver, h)) == t.Versions(id)
  {
    assert ListOK(s.env, s.m, s.hist, s.floor, id);
    var vs := VersionsAt(s.m, id);
    if id in s.journal {
      assert (vs + [VersionInfo(s.ver, KeyHash(s.env, id, s.now))])[..|vs|] == vs;
    }
  }

  /** The new leaf node. */
  lemma LeafRebuilt(s: TreeState, t: TreeState, leaf: nat, val: Digest, nodes: seq<TreeNode>, n: TreeNode)
    requires s.Ready() && SetsLeaf(s, t, leaf, val, nodes)
    requires n.Id() == LeafKey(s.env, leaf) && n.env == s.env && n.Shape() && !n.temporary
    requires n.versions == Publish(s.Versions(n.Id()), VersionInfo(t.ver, val))
    requires forall i :: 0 <= i < 16 ==> n.children[i] == null
    ensures t.PendingNode(n)
  {
    PathKeysAre(s.env, leaf, n.Id());
    PublishedList(s, t, leaf, val, nodes, n.Id(), val);
  }

  /** The hashes shown by the children of a path node once the path below it is rebuilt. */
  lemma RebuiltChildRoots(s: TreeState, t: TreeState, leaf: nat, val: Digest, nodes: seq<TreeNode>, i: nat, was: seq<TreeNode?>)
    requires s.Nodes() && SetsLeaf(s, t, leaf, val, nodes) && i + 1 < |nodes|
    requires t.PendingNode(nodes[i + 1]) && nodes[i].env == s.env
    requires |was| == 16 && forall k :: 0 <= k < 16 ==> s.ChildPending(nodes[i].Id().Child(k), was[k])
    requires nodes[i].Shape() && nodes[i].children == was[PathAt(s.env, leaf, 4 * i + 4) % 16 := nodes[i + 1]]
    ensures nodes[i].ChildRoots() == ChildSpec(s.env, nodes[i].Id(), t.now)
  {
    hide PathAt, BinHash, PathKeys, TreeState.Nodes, PackSpec, WithPath;
    var n, id, nibble := nodes[i], nodes[i].Id(), PathAt(s.env, leaf, 4 * i + 4) % 16;
    PathAtParent(s.env, leaf, 4 * i);
    assert nodes[i + 1].Id() == id.Child(nibble);
    NewChildRoot(s, t, leaf, val, nodes, nodes[i + 1]);
    forall k | 0 <= k < 16 ensures n.ChildRoot(k) == KeyHash(s.env, id.Child(k), t.now) {
      if k != nibble {
        assert s.ChildPending(id.Child(k), was[k]);
        s.PendingChildRoot(id.Child(k), was[k]);
        OffPath(s.env, s.now, leaf, val, id.Child(k));
      }
    }
  }

  lemma NewChildRoot(s: TreeState, t: TreeState, leaf: nat, val: Digest, nodes: seq<TreeNode>, c: TreeNode)
    requires SetsLeaf(s, t, leaf, val, nodes) && t.PendingNode(c) && PathAt(s.env, leaf, c.depth) == c.path
    ensures c.Root() == KeyHash(s.env, c.Id(), t.now)
  {
    PathKeysAre(s.env, leaf, c.Id());
    hide PathKeys, PathAt, BinHash, PackSpec;
  }

  /** A path node after its child has been replaced. */
  lemma PathRebuilt(s: TreeState, t: TreeState, leaf: nat, val: Digest, nodes: seq<TreeNode>, i: nat, was: seq<TreeNode?>)
    requires s.Nodes() && SetsLeaf(s, t, leaf, val, nodes) && i + 1 < |nodes|
    requires |was| == 16 && forall k :: 0 <= k < 16 ==> s.ChildPending(nodes[i].Id().Child(k), was[k])
    requires nodes[i].Shape() && nodes[i].children == was[PathAt(s.env, leaf, 4 * i + 4) % 16 := nodes[i + 1]]
    requires nodes[i].env == s.env && !nodes[i].temporary
    requires nodes[i].internals == PackSpec(s.env, nodes[i].Id(), t.now)
    requires nodes[i].versions == Publish(s.Versions(nodes[i].Id()), VersionInfo(t.ver, KeyHash(s.env, nodes[i].Id(), t.now)))
    ensures t.PendingNode(nodes[i])
  {
    var id := nodes[i].Id();
    PathKeysAre(s.env, leaf, id);
    PublishedList(s, t, leaf, val, nodes, id, KeyHash(s.env, id, t.now));
    PathChildren(s, t, leaf, val, nodes, i, was);
    hide PackSpec, PathKeys, WithPath, TreeState.Nodes, TreeState.Versions, TreeState.ChildPending;
  }

  lemma PathChildren(s: TreeState, t: TreeState, leaf: nat, val: Digest, nodes: seq<TreeNode>, i: nat, was: seq<TreeNode?>)
    requires SetsLeaf(s, t, leaf, val, nodes) && i + 1 < |nodes|
    requires |was| == 16 && forall k :: 0 <= k < 16 ==> s.ChildPending(nodes[i].Id().Child(k), was[k])
    requires nodes[i].Shape() && nodes[i].children == was[PathAt(s.env, leaf, 4 * i + 4) % 16 := nodes[i + 1]]
    ensures forall k :: 0 <= k < 16 ==> t.ChildPending(nodes[i].Id().Child(k), nodes[i].children[k])
    ensures Interior(s.env, nodes[i].Id())
  {
    hide PathKeys, PathAt;
    var id := nodes[i].Id();
    PathAtParent(s.env, leaf, 4 * i);
    forall k | 0 <= k < 16 ensures t.ChildPending(id.Child(k), nodes[i].children[k]) {
      assert s.ChildPending(id.Child(k), was[k]);
      OffPathChild(s.env, leaf, id, k);
      PathKeysAre(s.env, leaf, id.Child(k));
    }
  }

  /** All nodes of the new pending tree, once the path is rebuilt. */
  lemma SetKeepsNodes(s: TreeState, t: TreeState, leaf: nat, val: Digest, nodes: seq<TreeNode>)
    requires s.Nodes() && SetsLeaf(s, t, leaf, val, nodes)
    requires forall j :: 0 <= j < |nodes| ==> t.PendingNode(nodes[j]) && nodes[j] !in s.saved
    ensures t.Nodes()
    ensures PathKey(s.env, leaf, 0) in t.journal && t.journal[PathKey(s.env, leaf, 0)] == nodes[0]
    ensures forall n :: n in t.journal.Values ==> n in s.journal.Values || n in nodes
  {
    hide PathAt, PathKeys, DbOK, TreeState.PendingWith, TreeState.SavedWith, Closed, Agree;
    SetReady(s, t, leaf, val, nodes);
    forall id | id in t.journal ensures t.PendingNode(t.journal[id]) && t.journal[id] !in s.saved {
      if id in PathKeys(s.env, leaf) {
        PathKeysAre(s.env, leaf, id);
      } else {
        assert s.PendingNode(s.journal[id]);
        OffPathStays(s, t, leaf, val, nodes, s.journal[id]);
      }
    }
    forall n | n in t.saved ensures t.SavedNode(n) {
      assert s.SavedNode(n);
      SavedSame(s, t, n);
    }
    PathKeysAre(s.env, leaf, PathKey(s.env, leaf, 0));
    forall n | n in t.journal.Values ensures n in s.journal.Values || n in nodes {
      var id :| id in t.journal && t.journal[id] == n;
      if id in PathKeys(s.env, leaf) { PathKeysAre(s.env, leaf, id); }
    }
  }

  /** Committed nodes are judged by the committed part of the state alone. */
  lemma SavedSame(s: TreeState, t: TreeState, n: TreeNode)
    requires s.SavedNode(n) && t == s.(now := t.now, ver := t.ver, journal := t.journal)
    ensures t.SavedNode(n)
  {
    if !n.temporary && Interior(s.env, n.Id()) {
      forall i | 0 <= i < 16 ensures t.ChildSaved(n.Id().Child(i), n.children[i]) {
        assert s.ChildSaved(n.Id().Child(i), n.children[i]);
      }
    }
  }

  /** Without a journal the committed nodes are the whole tree. */
  lemma ResetNodes(s: TreeState, t: TreeState)
    requires s.Nodes() && t == s.(now := Newest(s.hist), ver := t.ver, journal := map[])
    ensures t.Nodes()
  {
    hide TreeState.SavedNode, DbOK;
    forall n | n in t.saved ensures t.SavedNode(n) {
      SavedSame(s, t, n);
    }
  }

  /** The copied leaf node takes the new value. */
  method RebuildLeaf(n: TreeNode, version: nat, ghost s: TreeState, ghost t: TreeState, leaf: nat, val: Digest,
                     ghost nodes: seq<TreeNode>)
    requires s.Ready() && SetsLeaf(s, t, leaf, val, nodes) && version == t.ver
    requires s.PendingNode(n) && n.Id() == LeafKey(s.env, leaf)
    modifies n
    ensures t.PendingNode(n)
  {
    n.Set(val, version);
    LeafRebuilt(s, t, leaf, val, nodes, n);
  }

  /** One step of the way back up: a copied path node takes its rebuilt child. */
  method RebuildNode(nodes: seq<TreeNode>, i: nat, nibble: nat, version: nat,
                     ghost s: TreeState, ghost t: TreeState, ghost leaf: nat, ghost val: Digest)
    requires s.Nodes() && SetsLeaf(s, t, leaf, val, nodes) && i + 1 < |nodes| && version == t.ver
    requires nibble == PathAt(s.env, leaf, 4 * i + 4) % 16
    requires s.PendingNode(nodes[i]) && nodes[i] !in s.saved && nodes[i] !in s.journal.Values
    requires t.PendingNode(nodes[i + 1]) && nodes[i] != nodes[i + 1]
    modifies nodes[i]
    ensures t.PendingNode(nodes[i])
  {
    hide TreeState.Nodes, TreeState.PendingNode, WithPath, PackSpec, PathAt;
    var n := nodes[i];
    ghost var was := n.children;
    PathNode(s, n);
    n.SetChildren(nodes[i + 1], nibble, version);
    Rebuilt(nodes, i, s, t, leaf, val, was);
  }

  lemma PathNode(s: TreeState, n: TreeNode)
    requires s.Nodes() && s.PendingNode(n) && Interior(s.env, n.Id()) && n !in s.saved && n !in s.journal.Values
    ensures n.Shape() && n.env == s.env && !n.temporary && n !in n.children && n.Packed() && n.versions == s.Versions(n.Id())
    ensures forall k :: 0 <= k < 16 ==> s.ChildPending(n.Id().Child(k), n.children[k])
  {
    s.PendingChildRoots(n);
    hide TreeState.Nodes, PackSpec;
    forall k | 0 <= k < 16 ensures n.children[k] != n {
      assert s.ChildPending(n.Id().Child(k), n.children[k]);
    }
  }

  lemma Rebuilt(nodes: seq<TreeNode>, i: nat, s: TreeState, t: TreeState, leaf: nat, val: Digest, was: seq<TreeNode?>)
    requires i + 1 < |nodes| && KeyOK(s.env, nodes[i].Id()) && nodes[i].env == s.env && nodes[i].Shape() && !nodes[i].temporary
    requires nodes[i].versions == Publish(s.Versions(nodes[i].Id()),
               VersionInfo(t.ver, s.env.hash(Raw(s.env, nodes[i].internals[0]), Raw(s.env, nodes[i].internals[1]))))
    requires nodes[i].Packed() && t.PendingNode(nodes[i + 1])
    requires |was| == 16 && forall k :: 0 <= k < 16 ==> s.ChildPending(nodes[i].Id().Child(k), was[k])
    requires s.Nodes() && SetsLeaf(s, t, leaf, val, nodes)
    requires nodes[i].children == was[PathAt(s.env, leaf, 4 * i + 4) % 16 := nodes[i + 1]]
    ensures t.PendingNode(nodes[i])
  {
    RebuiltChildRoots(s, t, leaf, val, nodes, i, was);
    TopIsBinHash(s.env, nodes[i].Id(), t.now);
    PathRebuilt(s, t, leaf, val, nodes, i, was);
  }

  /** The whole way back up, from the leaf to the root; each node enters the journal. */
  method RebuildNodes(env: Env, before: Journal, key: nat, val: Digest, version: nat, nodes: seq<TreeNode>,
                      ghost s: TreeState, ghost t: TreeState)
    returns (journal: Journal)
    requires s.Nodes() && SetsLeaf(s, t, key, val, nodes) && version == t.ver && env == s.env && before == s.journal
    requires forall j :: 0 <= j < |nodes| ==> s.PendingNode(nodes[j]) && nodes[j] !in s.saved && nodes[j] !in s.journal.Values
    requires forall j, k :: 0 <= j < k < |nodes| ==> nodes[j] != nodes[k]
    modifies nodes
    ensures t.Nodes() && journal == t.journal
    ensures PathKey(env, key, 0) in journal && journal[PathKey(env, key, 0)] == nodes[0]
    ensures forall n :: n in journal.Values ==> n in before.Values || n in nodes
  {
    hide TreeState.PendingNode, TreeState.SavedNode, TreeState.Ready, WithPath, WithPathFrom;
    var target := nodes[env.maxDepth / 4];
    RebuildLeaf(target, version, s, t, key, val, nodes);
    WithPathEnds(env, before, key, nodes);
    WithPathStep(env, before, key, nodes, env.maxDepth / 4);
    journal := before[target.Id() := target];
    for i := env.maxDepth / 4 downto 0
      invariant s.Nodes() && target == nodes[i]
      invariant forall j :: 0 <= j < i ==> s.PendingNode(nodes[j])
      invariant forall j :: i <= j < |nodes| ==> t.PendingNode(nodes[j])
      invariant journal == WithPathFrom(env, before, key, nodes, 4 * i)
    {
      var nibble := PathAt(env, key, 4 * i + 4) % 16;
      RebuildNode(nodes, i, nibble, version, s, t, key, val);
      target := nodes[i];
      WithPathStep(env, before, key, nodes, i);
      journal := journal[target.Id() := target];
    }
    SetKeepsNodes(s, t, key, val, nodes);
  }

  // ---- what reaches the nodes that copies were made from ----

  ghost predicate HaveIds(nodes: Journal) {
    forall id :: id in nodes ==> nodes[id].Id() == id
  }

  /** The nodes of `originals` that have copies. */
  ghost function WithCopies(originals: Journal, copies: Journal): set<TreeNode> {
    set id | id in originals && id in copies && copies[id] != originals[id] :: originals[id]
  }

  /** A copy shares its version list with the node it was made from: where the copy has
      overwritten the newest entry, the original shows the new one as well. */
  method ReachOriginals(originals: Journal, copies: Journal)
    requires HaveIds(originals) && HaveIds(copies)
    modifies WithCopies(originals, copies)`versions
    ensures forall id :: id in originals && id in copies && copies[id] != originals[id] ==>
      originals[id].versions == ThroughCopy(old(originals[id].versions), old(copies[id].versions))
  {
    hide ThroughCopy;
    var todo := originals.Keys * copies.Keys;
    while todo != {}
      invariant todo <= originals.Keys * copies.Keys
      invariant forall id :: id in todo ==> originals[id].versions == old(originals[id].versions)
      invariant forall id :: id in originals && id in copies && id !in todo && copies[id] != originals[id] ==>
        originals[id].versions == ThroughCopy(old(originals[id].versions), old(copies[id].versions))
      invariant forall id :: id in copies ==> copies[id].versions == old(copies[id].versions)
      decreases todo
    {
      var id :| id in todo;
      if copies[id] != originals[id] {
        ReachOriginal(originals[id], copies[id].versions);
      }
      todo := todo - {id};
    }
  }

  method ReachOriginal(original: TreeNode, own: seq<VersionInfo>)
    modifies original`versions
    ensures original.versions == ThroughCopy(old(original.versions), own)
  {
    if own != [] && original.versions != [] && Latest(original.versions) == own[|own| - 1].ver {
      original.NewVersion(own[|own| - 1]);
    }
  }

  function ThroughCopy(vs: seq<VersionInfo>, own: seq<VersionInfo>): seq<VersionInfo> {
    if own == [] then vs else Through(vs, own[|own| - 1])
  }
}
