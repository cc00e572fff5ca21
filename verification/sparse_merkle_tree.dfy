/** The versioned tree: a committed state in a store, a cache of it in memory, and pending
    changes in a journal of copied nodes. */
module SparseMerkleTrees {
  import opened MerkleSpec
  import opened PackedNode
  import opened VersionList
  import opened Database
  import opened History
  import opened TreeNodes
  import opened NodeState
  import opened PendingUpdate
  import opened Proofs
  import opened Committing
  import opened RollingBack
  import opened MultiSetProtocol
  import opened MultiSetWork
  import opened MultiSetWorkers
  import opened MultiSetPlacing
  import opened StaleSibling

  datatype Error = EmptyRoot | InvalidKey | VersionTooOld | VersionTooHigh | VersionTooLow | NodeNotFound

  datatype Result<+T> = Ok(value: T) | Err(error: Error)

  /** The bookkeeping cells of the store. */
  ghost predicate CellsOK(m: Table, version: nat, recentVersion: nat) {
    && (forall key :: NodeKey(key) in m ==> m[NodeKey(key)].Stored? && Under(key, ROOT_KEY))
    && (LatestVersionKey in m ==> m[LatestVersionKey] == Number(version))
    && (RecentVersionKey in m ==> m[RecentVersionKey] == Number(recentVersion))
    && (RecentVersionKey !in m ==> recentVersion == 0)
    && (LatestVersionKey !in m ==> RecentVersionKey !in m && forall key :: NodeKey(key) !in m)
  }

  /** What a cell of the store holds. */
  function Cell(m: Table, key: DbKey): Option<DbValue> {
    if key in m then Some(m[key]) else None
  }

  /** The leaves the store has a record of. */
  function StoredLeaves(env: Env, m: Table): set<nat> {
    set k | k in m.Keys && k.NodeKey? && k.key.depth == env.maxDepth :: k.key.path
  }

  function LeavesIn(env: Env, dirty: set<Key>): set<nat> {
    set id | id in dirty && id.depth == env.maxDepth :: id.path
  }

  /** A cached leaf has exactly the versions of the store. */
  ghost predicate CachedLeaf(env: Env, m: Table, leaf: nat, n: TreeNode)
    reads n`versions
  {
    n.Id() == LeafKey(env, leaf) && n.versions == VersionsAt(m, LeafKey(env, leaf))
  }

  /** Reads the version window and the root node from a store. */
  method InitFromStorage(env: Env, db: MemoryDB, initialVersion: nat, ghost hist: Hist, ghost floor: nat, ghost recent: nat)
    returns (version: nat, recentVersion: nat, root: TreeNode, ghost family: set<TreeNode>)
    requires env.Valid() && DbOK(env, db.db, hist, floor) && recent <= floor < |hist|
    requires CellsOK(db.db, |hist| - 1, recent)
    requires LatestVersionKey !in db.db ==> |hist| == initialVersion + 1
    ensures version == |hist| - 1 && recentVersion == recent
    ensures Brought(env, db.db, ROOT_KEY, root, family) && fresh(family)
  {
    version, recentVersion := initialVersion, 0;
    root := new TreeNode(env, 0, 0);
    family := {root};
    var latest := db.Get(LatestVersionKey);
    if latest.None? {
      return;
    }
    version := latest.value.n;
    var oldest := db.Get(RecentVersionKey);
    if oldest.Some? {
      recentVersion := oldest.value.n;
    }
    var stored := db.Get(NodeKey(ROOT_KEY));
    if stored.None? {
      return;
    }
    assert RecordOK(env, db.db, Newest(hist), ROOT_KEY);
    root := new TreeNode.FromRecord(env, 0, stored.value.record);
    family := Family(root);
  }

  class SparseMerkleTree {
    const env: Env
    const db: MemoryDB
    const batchSizeLimit: nat
    const valueLength: DbValue -> nat
    var version: nat
    var recentVersion: nat
    var root: TreeNode
    var lastSaveRoot: TreeNode
    var journal: Journal
    var dbCache: map<nat, TreeNode>

    // What the tree stands for: hist[w] is the snapshot committed as version w, `pending` the
    // snapshot with the changes not yet committed, all of them made for `pendingVersion`.
    // Reads are answered from version `floor` on; `saved` are the committed node objects.
    ghost var hist: Hist
    ghost var floor: nat
    ghost var pending: LeafMap
    ghost var pendingVersion: nat
    ghost var saved: set<TreeNode>

    ghost function State(): TreeState
      reads this, db
    {
      TreeState(env, db.db, hist, floor, pending, pendingVersion, saved, journal)
    }

    /** The node objects the tree consists of. */
    ghost function Owned(): set<TreeNode>
      reads this
    {
      saved + journal.Values
    }

    /** The scalar fields, the root pointers and the bookkeeping cells. */
    ghost predicate Shell()
      reads this, db
    {
      ShellFor(db.db)
    }

    ghost predicate ShellFor(m: Table)
      reads `version, `recentVersion, `root, `lastSaveRoot, `journal, `hist, `floor, `pending, `saved
    {
      && KeptShell(m) && |hist| == version + 1
      && (journal == map[] ==> root == lastSaveRoot && pending == Newest(hist))
      && (journal != map[] ==> ROOT_KEY in journal && root == journal[ROOT_KEY])
    }

    /** Those of the committed part. The history may go further than the newest version on
        offer, which is why it is not said here that it does not. */
    ghost predicate KeptShell(m: Table)
      reads `version, `recentVersion, `lastSaveRoot, `hist, `floor, `saved
    {
      && env.Valid() && version < |hist| && recentVersion <= floor < |hist| && recentVersion <= version
      && CellsOK(m, version, recentVersion)
      && lastSaveRoot in saved && lastSaveRoot.Id() == ROOT_KEY
    }

    /** The cache agrees with the store `t`. */
    ghost predicate CacheAgrees(t: Table)
      reads `dbCache, dbCache.Values
    {
      forall leaf :: leaf in dbCache ==> CachedLeaf(env, t, leaf, dbCache[leaf])
    }

    ghost predicate CacheOK()
      reads this, db, dbCache.Values
    {
      dbCache.Values !! journal.Values && CacheAgrees(db.db)
    }

    /** The committed part of the tree is in order, whatever is pending. */
    ghost predicate Kept()
      reads `version, `recentVersion, `lastSaveRoot, `dbCache, `hist, `floor, `saved, db, saved, dbCache.Values
    {
      KeptShell(db.db) && SavedState().Nodes() && !lastSaveRoot.temporary && CacheAgrees(db.db)
    }

    ghost function SavedState(): TreeState
      reads `hist, `floor, `saved, db
    {
      TreeState(env, db.db, hist, floor, Newest(hist), 0, saved, map[])
    }

    ghost predicate Valid()
      reads this, db, saved, journal.Values, dbCache.Values
    {
      Shell() && State().Nodes() && !lastSaveRoot.temporary && CacheOK()
    }

    /** Opens a tree on a store. If the store was written by a tree with history `hist`, of
        which versions from `floor` on can be read, the new tree stands for the same history. */
    constructor (env: Env, db: MemoryDB, initialVersion: nat, batchSizeLimit: nat, valueLength: DbValue -> nat,
                 ghost hist: Hist, ghost floor: nat, ghost recent: nat)
      requires env.Valid() && DbOK(env, db.db, hist, floor) && recent <= floor < |hist|
      requires CellsOK(db.db, |hist| - 1, recent)
      requires LatestVersionKey !in db.db ==> |hist| == initialVersion + 1
      ensures Valid() && this.env == env && this.db == db
      ensures this.hist == hist && this.floor == floor && pending == Newest(hist)
      ensures version == |hist| - 1 && recentVersion == recent && journal == map[] && dbCache == map[]
      ensures this.batchSizeLimit == batchSizeLimit && this.valueLength == valueLength && fresh(saved)
    {
      var v, r, top;
      ghost var family;
      v, r, top, family := InitFromStorage(env, db, initialVersion, hist, floor, recent);
      this.env := env;
      this.db := db;
      this.batchSizeLimit := batchSizeLimit;
      this.valueLength := valueLength;
      this.version := v;
      this.recentVersion := r;
      this.root := top;
      this.lastSaveRoot := top;
      this.journal := map[];
      this.dbCache := map[];
      this.hist := hist;
      this.floor := floor;
      this.pending := Newest(hist);
      this.pendingVersion := 0;
      this.saved := family;
      new;
      NewcomersSaved(State(), ROOT_KEY, top, saved);
    }

    /** Reads the child `nibble` of `node` from the store if it is not in memory. */
    method LoadChild(node: TreeNode, nibble: nat, path: nat, depth: nat, isCreated: bool)
      returns (ghost added: set<TreeNode>)
      requires node.Shape() && nibble < 16 && KeyOK(env, Key(depth, path))
      requires NodeKey(Key(depth, path)) in db.db ==> db.db[NodeKey(Key(depth, path))].Stored?
      requires forall r :: RecAt(db.db, Key(depth, path)) == Some(r) ==> |r.children| == 16 && |r.internals| == 14 && r.path == path
      modifies node`children
      ensures node.Shape() && node.children == old(node.children)[nibble := node.children[nibble]]
      ensures fresh(added)
      ensures var (was, c) := (old(node.children)[nibble], node.children[nibble]);
        if was != null && !was.temporary then c == was && added == {}
        else if RecAt(db.db, Key(depth, path)).None? && !isCreated then c == was && added == {}
        else Brought(env, db.db, Key(depth, path), c, added)
    {
      if node.children[nibble] != null && !node.children[nibble].temporary {
        return {};
      }
      var value := db.Get(NodeKey(Key(depth, path)));
      if value.Some? {
        var c := new TreeNode.FromRecord(env, depth, value.value.record);
        node.children := node.children[nibble := c];
        added := Family(c);
      } else if isCreated {
        var c := new TreeNode(env, depth, path);
        node.children := node.children[nibble := c];
        added := {c};
      } else {
        added := {};
      }
    }

    /** Makes sure the child `nibble` of a node of the pending tree is in memory. Nothing the
        tree stands for changes, and no other node is touched. */
    method ExtendNode(node: TreeNode, nibble: nat)
      requires Valid() && State().Live(node) && !node.temporary && Interior(env, node.Id()) && nibble < 16
      modifies this`saved, node`children
      ensures Valid() && old(saved) <= saved && fresh(saved - old(saved))
      ensures nibble < |node.children| == |old(node.children)|
      ensures node.children == old(node.children)[nibble := node.children[nibble]]
      ensures var c := node.children[nibble];
        c != null && !c.temporary && State().Live(c) && c.Id() == node.Id().Child(nibble)
    {
      hide TreeState.Nodes;
      ExtendNodes(node, nibble);
    }

    method ExtendNodes(node: TreeNode, nibble: nat)
      requires State().Nodes() && State().Live(node) && !node.temporary && Interior(env, node.Id()) && nibble < 16
      requires forall key :: NodeKey(key) in db.db ==> db.db[NodeKey(key)].Stored?
      modifies this`saved, node`children
      ensures State().Nodes() && old(saved) <= saved && fresh(saved - old(saved))
      ensures nibble < |node.children| == |old(node.children)|
      ensures node.children == old(node.children)[nibble := node.children[nibble]]
      ensures var c := node.children[nibble];
        c != null && !c.temporary && State().Live(c) && c.Id() == node.Id().Child(nibble)
    {
      hide TreeState.SavedWith, TreeState.PendingWith, Brought, RecordOK, DbOK, PackSpec;
      var id := node.Id().Child(nibble);
      ghost var s := State();
      ReadyToExtend(s, node, nibble);
      RecordShape(s, id);
      ghost var absent := node.children[nibble] == null || node.children[nibble].temporary;
      ghost var added := LoadChild(node, nibble, id.path, id.depth, true);
      saved := saved + added;
      if absent {
        NewcomersSaved(State(), id, node.children[nibble], added);
      }
      ExtensionKeeps(s, State(), node, old(node.children), nibble, added);
    }

    lemma RecordShape(s: TreeState, id: Key)
      requires KeyOK(s.env, id) && RecordOK(s.env, s.m, s.Last(), id)
      ensures forall r :: RecAt(s.m, id) == Some(r) ==> |r.children| == 16 && |r.internals| == 14 && r.path == id.path
    {
    }

    /** A leaf index is in range exactly when its path starts at the root node. */
    lemma KeyInRange(key: nat)
      requires key < Pow2(env.maxDepth)
      ensures PathKey(env, key, 0) == ROOT_KEY
    {
      ValidLeafHasRoot(env, key, 0);
    }

    lemma RootIsLive()
      requires Valid()
      ensures State().Live(root) && !root.temporary && root.Id() == ROOT_KEY
      ensures State().PendingNode(root)
    {
      if journal == map[] {
        assert State().SavedNode(root);
      } else {
        assert State().PendingNode(journal[ROOT_KEY]);
      }
      State().LiveIsPending(root);
    }

    ghost predicate Copies(nodes: seq<TreeNode>, key: nat)
      reads this, db, nodes
    {
      forall j :: 0 <= j < |nodes| ==>
        && nodes[j].Id() == PathKey(env, key, 4 * j)
        && nodes[j] !in saved && nodes[j] !in journal.Values && nodes[j] !in dbCache.Values
        && State().PendingNode(nodes[j])
    }

    /** Walks from the root to a leaf, reading nodes from the store as needed, and copies
        every node on the way. The tree itself only gains nodes in memory. */
    method CopyPath(key: nat) returns (nodes: seq<TreeNode>)
      requires Valid() && key < Pow2(env.maxDepth)
      modifies this`saved, saved, journal.Values
      ensures Valid() && old(saved) <= saved && fresh(saved - old(saved))
      ensures |nodes| == env.maxDepth / 4 + 1 && Copies(nodes, key)
      ensures fresh(nodes) && forall j, k :: 0 <= j < k < |nodes| ==> nodes[j] != nodes[k]
    {
      hide SparseMerkleTree.Valid, TreeState.PendingNode, TreeState.Nodes, PathAt, Pow2;
      RootIsLive();
      KeyInRange(key);
      var target := root;
      nodes := [];
      for i := 0 to env.maxDepth / 4
        invariant Valid() && old(saved) <= saved && fresh(saved - old(saved))
        invariant |nodes| == i && Copies(nodes, key)
        invariant fresh(nodes) && forall j, k :: 0 <= j < k < |nodes| ==> nodes[j] != nodes[k]
        invariant State().Live(target) && !target.temporary && target.Id() == PathKey(env, key, 4 * i)
      {
        var nibble := PathAt(env, key, 4 * i + 4) % 16;
        PathAtParent(env, key, 4 * i);
        target, nodes := CopyAndExtend(target, nibble, key, nodes);
      }
      var leaf := CopyLive(target);
      nodes := nodes + [leaf];
    }

    /** A copy of a node of the pending tree is as good as the node. */
    method CopyLive(n: TreeNode) returns (c: TreeNode)
      requires Valid() && State().Live(n) && !n.temporary
      ensures fresh(c) && c.Id() == n.Id() && State().PendingNode(c) && Valid()
    {
      State().LiveIsPending(n);
      hide SparseMerkleTree.Valid, TreeState.Nodes, TreeState.ChildPending, PackSpec;
      c := n.Copy();
    }

    method CopyAndExtend(target: TreeNode, nibble: nat, ghost key: nat, nodes: seq<TreeNode>)
      returns (next: TreeNode, nodes': seq<TreeNode>)
      requires Valid() && Copies(nodes, key) && nibble < 16
      requires State().Live(target) && !target.temporary && Interior(env, target.Id())
      requires target.Id() == PathKey(env, key, 4 * |nodes|)
      modifies this`saved, target`children
      ensures Valid() && old(saved) <= saved && fresh(saved - old(saved))
      ensures State().Live(next) && !next.temporary && next.Id() == target.Id().Child(nibble)
      ensures |nodes'| == |nodes| + 1 && nodes == nodes'[..|nodes|] && fresh(nodes'[|nodes|])
      ensures Copies(nodes', key)
    {
      hide SparseMerkleTree.Valid, TreeState.PendingNode, TreeState.Nodes;
      var c := CopyLive(target);
      nodes' := nodes + [c];
      ghost var s := State();
      ExtendNode(target, nibble);
      next := target.children[nibble];
      forall j | 0 <= j < |nodes'| ensures State().PendingNode(nodes'[j]) {
        PendingMono(s, State(), nodes'[j]);
      }
    }

    /** Puts the new leaf in place and re-hashes the copied path above it, bottom up. */
    method RebuildPath(key: nat, val: Digest, newVersion: nat, nodes: seq<TreeNode>)
      requires Valid() && key < Pow2(env.maxDepth) && newVersion > version
      requires journal != map[] ==> newVersion == pendingVersion
      requires |nodes| == env.maxDepth / 4 + 1 && Copies(nodes, key)
      requires forall j, k :: 0 <= j < k < |nodes| ==> nodes[j] != nodes[k]
      modifies this`journal, this`root, this`pending, this`pendingVersion, nodes, journal.Values
      ensures Valid() && journal != map[] && forall n :: n in journal.Values ==> n in old(journal).Values || n in nodes
      ensures pending == old(pending)[key := val] && pendingVersion == newVersion
      ensures journal.Keys == old(journal).Keys + PathKeys(env, key)
    {
      hide TreeState.PendingNode, TreeState.SavedNode, TreeState.Nodes, WithPath, CellsOK, Pow2, CachedLeaf, WithCopies, HaveIds;
      var before := journal;
      RebuildPending(key, val, newVersion, nodes);
      OldJournal();
      RootNotGone(before, journal);
      GoneIsOld(before, journal);
      LetGo(before);
    }

    /** The nodes that have been replaced in the journal may still change through the lists they
        share with their copies; the tree no longer has them. */
    method LetGo(before: Journal)
      requires HaveIds(before) && HaveIds(journal) && before.Values !! saved && before.Values !! dbCache.Values
      requires root !in WithCopies(before, journal)
      modifies WithCopies(before, journal)`versions
      ensures (old(Valid()) ==> Valid()) && (old(Kept()) ==> Kept()) && root.Root() == old(root.Root())
    {
      GoneIsGone(before);
      hide SparseMerkleTree.Valid, SparseMerkleTree.Kept, HaveIds;
      ReachOriginals(before, journal);
    }

    lemma GoneIsGone(before: Journal)
      requires HaveIds(before) && HaveIds(journal) && before.Values !! saved && before.Values !! dbCache.Values
      ensures var gone := WithCopies(before, journal); gone !! saved && gone !! journal.Values && gone !! dbCache.Values
    {
    }

    method RebuildPending(key: nat, val: Digest, newVersion: nat, nodes: seq<TreeNode>)
      requires Valid() && key < Pow2(env.maxDepth) && newVersion > version
      requires journal != map[] ==> newVersion == pendingVersion
      requires |nodes| == env.maxDepth / 4 + 1 && Copies(nodes, key)
      requires forall j, k :: 0 <= j < k < |nodes| ==> nodes[j] != nodes[k]
      modifies this`journal, this`root, this`pending, this`pendingVersion, nodes
      ensures Valid() && journal != map[] && forall n :: n in journal.Values ==> n in old(journal).Values || n in nodes
      ensures pending == old(pending)[key := val] && pendingVersion == newVersion
      ensures HaveIds(old(journal)) && old(journal).Values !! saved && old(journal).Values !! dbCache.Values
      ensures journal.Keys == old(journal).Keys + PathKeys(env, key)
    {
      ghost var s := State();
      hide TreeState.PendingNode, TreeState.SavedNode, TreeState.Nodes, WithPath, PathKeys, PathAt, CellsOK, Pow2,
        CachedLeaf, HaveIds;
      OldJournal();
      ghost var t := s.(now := pending[key := val], ver := newVersion, journal := WithPath(env, journal, key, nodes));
      KeyInRange(key);
      WithPathKeys(env, journal, key, nodes);
      var journal' := RebuildNodes(env, journal, key, val, newVersion, nodes, s, t);
      TakePending(journal', nodes[0], pending[key := val], newVersion);
    }

    lemma OldJournal()
      requires Valid()
      ensures HaveIds(journal) && journal.Values !! saved && journal.Values !! dbCache.Values
    {
    }

    method TakePending(journal': Journal, root': TreeNode, ghost pending': LeafMap, ghost newVersion: nat)
      modifies this`journal, this`root, this`pending, this`pendingVersion
      ensures journal == journal' && root == root' && pending == pending' && pendingVersion == newVersion
    {
      journal, root := journal', root';
      pending, pendingVersion := pending', newVersion;
    }

    /** Sets one leaf for the pending version. Only the pending snapshot changes. */
    method SetWithVersion(key: nat, val: Digest, newVersion: nat) returns (error: Option<Error>)
      requires Valid()
      requires journal != map[] && newVersion > version ==> newVersion == pendingVersion
      modifies this`journal, this`root, this`pending, this`pendingVersion, this`saved, saved, journal.Values
      ensures Valid() && fresh(Owned() - old(Owned()))
      ensures error == if key >= Pow2(env.maxDepth) then Some(InvalidKey)
                       else if newVersion <= version then Some(VersionTooLow) else None
      ensures error.None? ==> pending == old(pending)[key := val] && pendingVersion == newVersion && journal != map[]
      ensures error.None? ==> journal.Keys == old(journal).Keys + PathKeys(env, key)
      ensures error.Some? ==> pending == old(pending) && pendingVersion == old(pendingVersion) && journal == old(journal)
    {
      if key >= Pow2(env.maxDepth) {
        return Some(InvalidKey);
      }
      if newVersion <= version {
        return Some(VersionTooLow);
      }
      var nodes := CopyPath(key);
      RebuildPath(key, val, newVersion, nodes);
      return None;
    }

    method Set(key: nat, val: Digest) returns (error: Option<Error>)
      requires Valid() && (journal != map[] ==> pendingVersion == version + 1)
      modifies this`journal, this`root, this`pending, this`pendingVersion, this`saved, saved, journal.Values
      ensures Valid() && fresh(Owned() - old(Owned()))
      ensures error == if key >= Pow2(env.maxDepth) then Some(InvalidKey) else None
      ensures error.None? ==> pending == old(pending)[key := val] && pendingVersion == version + 1 && journal != map[]
      ensures error.None? ==> journal.Keys == old(journal).Keys + PathKeys(env, key)
      ensures error.Some? ==> pending == old(pending) && pendingVersion == old(pendingVersion) && journal == old(journal)
    {
      error := SetWithVersion(key, val, version + 1);
    }

    /** The root hash of the tree is the binary Merkle root of the pending snapshot. */
    lemma RootHash()
      requires Valid()
      ensures root.Root() == TreeHash(env, pending)
    {
      RootIsLive();
      State().LiveRoot(root);
    }

    /** What reads and checks rely on: the committed part and the root hash. */
    lemma ValidIsKept()
      requires Valid()
      ensures Kept() && root.Root() == TreeHash(env, pending)
      ensures |hist| == version + 1 && hist[version] == Newest(hist) && floor <= version
    {
      RootHash();
      hide TreeState.Nodes, CellsOK, CachedLeaf, TreeHash;
      ResetNodes(State(), SavedState());
    }

    method IsEmpty() returns (empty: bool)
      requires root.Root() == TreeHash(env, pending)
      ensures empty <==> TreeHash(env, pending) == NilHash(env, 0)
    {
      empty := root.Root() == NilHash(env, 0);
    }

    /** Puts a leaf in the cache; the cache may drop any other leaves. */
    method CacheAdd(leaf: nat, n: TreeNode)
      modifies this`dbCache
      ensures leaf in dbCache && dbCache[leaf] == n
      ensures forall k :: k in dbCache && k != leaf ==> k in old(dbCache) && dbCache[k] == old(dbCache)[k]
    {
      var keep :| keep <= dbCache.Keys;
      dbCache := (map k | k in keep :: dbCache[k])[leaf := n];
    }

    /** What `Get` answers. A leaf without a record is not found. Where the stored list of a leaf
        can be read, the answer is the value in the snapshot, which may be the nil leaf; below,
        where entries have been pruned, it is the nil leaf. */
    ghost predicate Answers(r: Result<Digest>, key: nat, version: Option<nat>)
      reads this, db
    {
      var w := if version.None? then this.version else version.value;
      if TreeHash(env, pending) == NilHash(env, 0) then r == Err(EmptyRoot)
      else if key >= Pow2(env.maxDepth) then r == Err(InvalidKey)
      else if recentVersion > w then r == Err(VersionTooOld)
      else if w > this.version then r == Err(VersionTooHigh)
      else w < |hist| && r == if key !in StoredLeaves(env, db.db) then Err(NodeNotFound)
                              else Ok(if ReadsLeaf(key, w) then LeafHash(env, hist[w], key) else env.nilLeaf)
    }

    /** The stored list of the leaf can be read at version `w`. */
    ghost predicate ReadsLeaf(key: nat, w: nat)
      reads this, db
    {
      Readable(floor, VersionsAt(db.db, LeafKey(env, key)), w)
    }

    ghost predicate Tells(r: Result<Digest>, val: Digest)
      reads this
    {
      match r
      case Ok(v) => v == val
      case Err(e) => e == NodeNotFound && val == env.nilLeaf
    }

    /** The answer for a version on offer is right if and only if the stored list can be read
        there, or the leaf had no value then; and it is right where the root's list can be read. */
    ghost predicate RightAt(r: Result<Digest>, key: nat, w: nat)
      requires w < |hist|
      reads this, db
    {
      && (Tells(r, LeafHash(env, hist[w], key)) <==> ReadsLeaf(key, w) || LeafHash(env, hist[w], key) == env.nilLeaf)
      && (InReach(db.db, floor, w) ==> Tells(r, LeafHash(env, hist[w], key)))
    }

    /** Reads a leaf at a version: the value it had in that snapshot. What is pending does not
        matter, except that nothing is found while the pending tree is empty. */
    method Get(key: nat, version: Option<nat>) returns (r: Result<Digest>)
      requires Kept() && root.Root() == TreeHash(env, pending)
      modifies this`dbCache
      ensures Kept() && (old(Valid()) ==> Valid())
      ensures Answers(r, key, version)
      ensures var w := if version.None? then this.version else version.value;
        TreeHash(env, pending) != NilHash(env, 0) && key < Pow2(env.maxDepth) && recentVersion <= w <= this.version ==>
          RightAt(r, key, w) && (r == Err(NodeNotFound) <==> NodeKey(LeafKey(env, key)) !in db.db)
    {
      var empty := IsEmpty();
      if empty {
        return Err(EmptyRoot);
      }
      if key >= Pow2(env.maxDepth) {
        return Err(InvalidKey);
      }
      var w := if version.None? then this.version else version.value;
      if recentVersion > w {
        return Err(VersionTooOld);
      }
      if w > this.version {
        return Err(VersionTooHigh);
      }
      LeafReads(key, w);
      LeafRecords(key);
      hide SparseMerkleTree.Kept, SparseMerkleTree.Valid, TreeHash, NilHash, Pow2, Readable, InReach;
      r := ReadLeaf(key, w);
    }

    /** Looks into the cache first. */
    method ReadLeaf(key: nat, w: nat) returns (r: Result<Digest>)
      requires Kept()
      modifies this`dbCache
      ensures Kept() && (old(Valid()) ==> Valid())
      ensures r == if NodeKey(LeafKey(env, key)) !in db.db then Err(NodeNotFound)
                   else Ok(HashAt(env, env.maxDepth, VersionsAt(db.db, LeafKey(env, key)), w))
      ensures r.Ok? ==> key in dbCache
    {
      hide SparseMerkleTree.Kept, SparseMerkleTree.Valid, NilHash;
      if key in dbCache {
        LeafCached(key);
        var found := ReadAt(dbCache[key].versions, w);
        if found.Some? {
          return Ok(found.value.hash);
        }
      }
      r := ReadStored(key, w);
    }

    /** The part of `Get` that goes to the store and remembers the leaf. */
    method ReadStored(key: nat, w: nat) returns (r: Result<Digest>)
      requires Kept()
      modifies this`dbCache
      ensures Kept() && (old(Valid()) ==> Valid())
      ensures r == if NodeKey(LeafKey(env, key)) !in db.db then Err(NodeNotFound)
                   else Ok(HashAt(env, env.maxDepth, VersionsAt(db.db, LeafKey(env, key)), w))
      ensures r.Ok? ==> key in dbCache
    {
      hide SparseMerkleTree.Valid, SparseMerkleTree.Kept, NilHash, Lookup, TreeNode.Placeholder;
      LeafStored(key);
      var value := db.Get(NodeKey(LeafKey(env, key)));
      if value.None? {
        return Err(NodeNotFound);
      }
      var n := new TreeNode.FromRecord(env, env.maxDepth, value.value.record);
      Remember(key, n);
      var found := ReadAt(value.value.record.versions, w);
      r := Ok(if found.Some? then found.value.hash else NilHash(env, env.maxDepth));
    }

    method Remember(key: nat, n: TreeNode)
      requires Kept() && CachedLeaf(env, db.db, key, n) && n !in journal.Values
      modifies this`dbCache
      ensures Kept() && (old(Valid()) ==> Valid()) && key in dbCache
    {
      hide TreeState.Nodes, CellsOK;
      CacheAdd(key, n);
    }

    /** A leaf is among the stored ones exactly if it has a record; one that has none reads as absent. */
    lemma LeafRecords(key: nat)
      ensures key in StoredLeaves(env, db.db) <==> NodeKey(LeafKey(env, key)) in db.db
      ensures forall w :: NodeKey(LeafKey(env, key)) !in db.db ==>
        HashAt(env, env.maxDepth, VersionsAt(db.db, LeafKey(env, key)), w) == env.nilLeaf
    {
    }

    lemma LeafCached(key: nat)
      requires Kept() && key in dbCache
      ensures dbCache[key].versions == VersionsAt(db.db, LeafKey(env, key))
    {
      assert CachedLeaf(env, db.db, key, dbCache[key]);
    }

    lemma LeafStored(key: nat)
      requires Kept()
      ensures NodeKey(LeafKey(env, key)) in db.db ==>
        var v := db.db[NodeKey(LeafKey(env, key))];
        v.Stored? && |v.record.children| == 16 && |v.record.internals| == 14 && v.record.path == key
    {
      assert RecordOK(env, db.db, Newest(hist), LeafKey(env, key));
    }

    /** A leaf whose list can be read at `w` reads as its hash in that snapshot, any other as
        absent. Where the root's list can be read, that is right. */
    lemma LeafReads(key: nat, w: nat)
      requires Kept() && w < |hist|
      ensures HashAt(env, env.maxDepth, VersionsAt(db.db, LeafKey(env, key)), w) ==
        if ReadsLeaf(key, w) then LeafHash(env, hist[w], key) else env.nilLeaf
      ensures InReach(db.db, floor, w) ==> ReadsLeaf(key, w) || LeafHash(env, hist[w], key) == env.nilLeaf
    {
      var vs := VersionsAt(db.db, LeafKey(env, key));
      assert ListOK(env, db.db, hist, floor, LeafKey(env, key));
      if ReadsLeaf(key, w) {
        assert ReadsAs(env, db.db, hist[w], LeafKey(env, key), w);
      } else {
        var i := LookupFinds(vs, w);
        if InReach(db.db, floor, w) {
          assert ReadsAs(env, db.db, hist[w], LeafKey(env, key), w);
        }
      }
    }

    /** The proof for a key: the sibling hashes, collected from the root down and reversed. */
    method GetProof(key: nat) returns (r: Result<Proof>)
      requires Valid()
      modifies this`saved, saved, journal.Values
      ensures Valid() && fresh(Owned() - old(Owned()))
      ensures r == if TreeHash(env, pending) != NilHash(env, 0) && key >= Pow2(env.maxDepth) then Err(InvalidKey)
                   else Ok(ProofFor(env, key, pending))
      ensures r.Ok? ==> |r.value| == env.maxDepth && forall i :: 0 <= i < env.maxDepth ==>
        r.value[i] == if TreeHash(env, pending) == NilHash(env, 0) then NilHash(env, env.maxDepth - i)
                      else BinHash(env, env.maxDepth - i, Xor1(PathAt(env, key, env.maxDepth - i)), pending)
    {
      hide SparseMerkleTree.Valid, TreeHash, NilHash, SiblingHash, Pow2, BinHash;
      RootHash();
      ProofEntries(env, key, pending);
      var empty := IsEmpty();
      var proofs: Proof := [];
      if empty {
        proofs := NilHashes(env);
        return Ok(proofs);
      }
      if key >= Pow2(env.maxDepth) {
        return Err(InvalidKey);
      }
      proofs := CollectSiblings(key);
      var reversed := Reverse(proofs);
      assert reversed == Siblings(env, key, pending);
      r := Ok(reversed);
    }

    method CollectSiblings(key: nat) returns (proofs: Proof)
      requires Valid() && key < Pow2(env.maxDepth)
      modifies this`saved, saved, journal.Values
      ensures Valid() && |proofs| == env.maxDepth && fresh(saved - old(saved))
      ensures forall k :: 0 <= k < env.maxDepth ==> proofs[k] == SiblingHash(env, key, k + 1, pending)
    {
      hide SparseMerkleTree.Valid, TreeState.PendingNode, TreeState.Nodes, PathAt, Pow2;
      RootIsLive();
      KeyInRange(key);
      assert env.Valid() by { ValidEnv(); }
      var target: TreeNode := root;
      proofs := [];
      for i := 0 to env.maxDepth / 4
        invariant Valid() && old(saved) <= saved && fresh(saved - old(saved))
        invariant |proofs| == 4 * i && forall k :: 0 <= k < |proofs| ==> proofs[k] == SiblingHash(env, key, k + 1, pending)
        invariant State().Live(target) && !target.temporary && target.Id() == PathKey(env, key, 4 * i)
      {
        var nibble := PathAt(env, key, 4 * i + 4) % 16;
        PathAtParent(env, key, 4 * i);
        ExtendNode(target, nibble);
        var four := NodeSiblings(target, nibble, key);
        proofs := proofs + four;
        target := target.children[nibble];
      }
    }

    lemma ValidEnv()
      requires Valid()
      ensures env.Valid()
    {
    }

    /** The siblings inside one node and the neighbour of the child that is walked to. */
    method NodeSiblings(node: TreeNode, nibble: nat, ghost key: nat) returns (r: Proof)
      requires Valid() && State().Live(node) && !node.temporary && Interior(env, node.Id())
      requires node.Id() == PathKey(env, key, node.depth) && nibble == PathAt(env, key, node.depth + 4) % 16
      ensures |r| == 4 && forall k :: 0 <= k < 4 ==> r[k] == SiblingHash(env, key, node.depth + k + 1, pending)
      ensures Valid()
    {
      NeighborHash(node, nibble, key);
      hide SparseMerkleTree.Valid, PackSpec, PathAt, SiblingHash;
      r := SlotSiblings(node, nibble, key);
      var neighbor := node.children[Xor1(nibble)];
      if neighbor == null {
        r := r + [NilHash(env, node.depth + 4)];
      } else {
        r := r + [neighbor.Root()];
      }
    }

    lemma NeighborHash(node: TreeNode, nibble: nat, key: nat)
      requires Valid() && State().Live(node) && !node.temporary && Interior(env, node.Id())
      requires node.Id() == PathKey(env, key, node.depth) && nibble == PathAt(env, key, node.depth + 4) % 16
      ensures env.Valid() && node.Shape() && node.internals == PackSpec(env, node.Id(), pending)
      ensures node.ChildRoot(Xor1(nibble)) == SiblingHash(env, key, node.depth + 4, pending)
    {
      State().LiveIsPending(node);
      hide PathAt, Xor1, PackSpec, TreeState.PendingNode;
      var id := node.Id().Child(Xor1(nibble));
      SiblingPath(PathAt(env, key, node.depth + 4));
      PendingChildOf(node, Xor1(nibble));
      State().PendingChildRoot(id, node.children[Xor1(nibble)]);
      PathAtParent(env, key, node.depth);
    }

    lemma PendingChildOf(node: TreeNode, i: nat)
      requires State().PendingNode(node) && Interior(env, node.Id()) && i < 16
      ensures node.Shape() && node.internals == PackSpec(env, node.Id(), pending)
      ensures State().ChildPending(node.Id().Child(i), node.children[i])
    {
    }

    method SlotSiblings(node: TreeNode, nibble: nat, ghost key: nat) returns (r: Proof)
      requires env.Valid() && Interior(env, node.Id()) && |node.internals| == 14
      requires node.internals == PackSpec(env, node.Id(), pending)
      requires node.Id() == PathKey(env, key, node.depth) && nibble == PathAt(env, key, node.depth + 4) % 16
      ensures |r| == 3 && forall k :: 0 <= k < 3 ==> r[k] == SiblingHash(env, key, node.depth + k + 1, pending)
    {
      hide PackSpec, SiblingHash, PathAt, Xor1;
      r := [];
      var index, div := 0, 8;
      for j := 0 to 3
        invariant (j == 0 && index == 0 && div == 8) || (j == 1 && index == 2 && div == 4) || (j == 2 && index == 6 && div == 2) || j == 3
        invariant |r| == j && forall k :: 0 <= k < j ==> r[k] == SiblingHash(env, key, node.depth + k + 1, pending)
      {
        var inc := nibble / div;
        SiblingInSlot(env, key, node.depth, j, pending);
        r := r + [Raw(env, node.internals[Xor1(index + inc)])];
        index, div := if j == 0 then 2 else 6, div / 2;
      }
    }

    /** Checks a proof of the committed value of a key against the root. */
    method VerifyProof(key: nat, proof: Proof) returns (ok: bool)
      requires Kept() && root.Root() == TreeHash(env, pending)
      modifies this`dbCache
      ensures Kept() && (old(Valid()) ==> Valid())
      ensures ok <==> Accepts(env, key, pending, if ReadsLeaf(key, version) then hist[version] else map[], proof)
    {
      hide SparseMerkleTree.Kept, SparseMerkleTree.Valid, Pow2, Climb, ClaimedHash, PathAt, Readable;
      assert env.Valid() && version < |hist| by { KeptEnv(); }
      if key >= Pow2(env.maxDepth) {
        return false;
      }
      var keyVal := ClaimedValue(key);
      var helpers := Directions(env, key);
      if |proof| != |helpers| {
        return false;
      }
      var node := ClimbUp(env, key, keyVal, proof, helpers);
      ok := root.Root() == node;
    }

    lemma KeptEnv()
      requires Kept()
      ensures env.Valid() && version < |hist|
    {
    }

    /** The committed value of a key; an empty one reads as absent. */
    method ClaimedValue(key: nat) returns (keyVal: Digest)
      requires Kept() && root.Root() == TreeHash(env, pending) && key < Pow2(env.maxDepth)
      modifies this`dbCache
      ensures Kept() && (old(Valid()) ==> Valid())
      ensures version < |hist| && keyVal == ClaimedHash(env, key, pending, if ReadsLeaf(key, version) then hist[version] else map[])
    {
      var value := Get(key, None);
      keyVal := if value.Ok? && value.value != env.empty then value.value else NilHash(env, env.maxDepth);
    }

    /** The store with the writes of the batch, in the middle of a commit. */
    ghost predicate StagedOK(s: TreeState, oldest: Option<nat>, done: set<Key>, t: Table) {
      && (forall key :: NodeKey(key) in t ==> t[NodeKey(key)].Stored? && (NodeKey(key) in s.m || key in done))
      && (RecentVersionKey in t <==> RecentVersionKey in s.m)
      && (RecentVersionKey in t ==> t[RecentVersionKey] == s.m[RecentVersionKey])
      && forall key {:trigger KeyStaged(s, oldest, done, t, key)} :: KeyOK(s.env, key) ==> KeyStaged(s, oldest, done, t, key)
    }

    ghost predicate KeyStaged(s: TreeState, oldest: Option<nat>, done: set<Key>, t: Table, key: Key)
      requires KeyOK(s.env, key)
    {
      if key in done
      then RecAt(t, key).Some? && WrittenOK(s.env, s.m, RecAt(t, key).value, s.journal.Keys, s.now, s.ver, oldest, key)
      else RecAt(t, key) == RecAt(s.m, key)
    }

    /** The cache in the middle of a commit: it agrees with the store and the batch. */
    ghost predicate CacheMid(s: TreeState, done: set<Key>, t: Table)
      reads this, dbCache.Values
    {
      forall leaf :: leaf in dbCache ==> LeafMid(s, done, t, leaf, dbCache[leaf])
    }

    ghost predicate LeafMid(s: TreeState, done: set<Key>, t: Table, leaf: nat, n: TreeNode)
      reads n
    {
      CachedLeaf(s.env, t, leaf, n) && (n in s.journal.Values ==> LeafKey(s.env, leaf) in done)
    }

    ghost predicate Midway(s: TreeState, oldest: Option<nat>, done: set<Key>, batch: Batch)
      reads this, db, batch, s.saved, s.journal.Values, dbCache.Values
    {
      && CommitReady(s) && s.env == env && journal == s.journal && batch.db == db
      && s.AllSaved() && MidJournal(s, oldest, done)
      && StagedOK(s, oldest, done, batch.Staged())
      && CacheMid(s, done, batch.Staged())
    }

    /** Prunes one node of the journal and writes its record. */
    method WriteNode(batch: Batch, node: TreeNode, oldest: Option<nat>, ghost s: TreeState, ghost done: set<Key>)
      requires Midway(s, oldest, done, batch) && s.journal.Values !! s.saved
      requires node.Id() in journal && node == journal[node.Id()] && node.Id() !in done
      modifies this`dbCache, node`versions, batch, db
      ensures Midway(s, oldest, done + {node.Id()}, batch) && batch.size <= batchSizeLimit
      ensures node.depth == env.maxDepth ==> node.path in dbCache && dbCache[node.path] == node
    {
      hide WrittenOK, CommitReady, StagedOK, TreeState.AllSaved, MidJournal, SparseMerkleTree.LeafMid, MidRest,
        TreeState.Versions;
      ghost var t := batch.Staged();
      NotCachedYet(s, node, done, t);
      PruneNode(node, oldest, s, done);
      RecordOfNode(s, oldest, done + {node.Id()}, node);
      var record := node.ToRecord();
      StoreRecord(batch, node.Id(), record, oldest, s, done);
      CacheWritten(node, record, s, done, t);
    }

    lemma NotCachedYet(s: TreeState, node: TreeNode, done: set<Key>, t: Table)
      requires CacheMid(s, done, t) && node in s.journal.Values && node.Id() !in done
      ensures node !in dbCache.Values
    {
      forall leaf | leaf in dbCache ensures dbCache[leaf] != node {
        assert LeafMid(s, done, t, leaf, dbCache[leaf]);
      }
    }

    /** A written leaf enters the cache. */
    method CacheWritten(node: TreeNode, record: Record, ghost s: TreeState, ghost done: set<Key>, ghost t: Table)
      requires s.env == env && record.versions == node.versions && node.Id() in s.journal
      requires forall leaf :: leaf in dbCache && dbCache[leaf] != node ==> LeafMid(s, done, t, leaf, dbCache[leaf])
      requires node !in dbCache.Values
      modifies this`dbCache
      ensures CacheMid(s, done + {node.Id()}, t[NodeKey(node.Id()) := Stored(record)])
      ensures node.depth == env.maxDepth ==> node.path in dbCache && dbCache[node.path] == node
    {
      ghost var t' := t[NodeKey(node.Id()) := Stored(record)];
      if node.depth == env.maxDepth {
        CacheAdd(node.path, node);
      }
      forall leaf | leaf in dbCache
        ensures LeafMid(s, done + {node.Id()}, t', leaf, dbCache[leaf])
      {
        assert LeafKey(env, leaf) != node.Id() ==> RecAt(t', LeafKey(env, leaf)) == RecAt(t, LeafKey(env, leaf));
      }
    }

    method PruneNode(node: TreeNode, oldest: Option<nat>, ghost s: TreeState, ghost done: set<Key>)
      requires CommitReady(s) && s.AllSaved() && MidJournal(s, oldest, done) && s.journal.Values !! s.saved
      requires node.Id() in s.journal && node == s.journal[node.Id()] && node.Id() !in done
      modifies node`versions
      ensures s.AllSaved() && MidJournal(s, oldest, done + {node.Id()})
      ensures node.versions == PruneTo(s.Versions(node.Id()), oldest)
    {
      hide CommitReady, MidRest, TreeState.AllSaved, TreeState.Versions, Pruned, Ascending;
      PruneFacts(node, oldest, s, done);
      PruneList(node, oldest);
      NodePruned(s, oldest, done, node.Id());
    }

    lemma PruneFacts(node: TreeNode, oldest: Option<nat>, s: TreeState, done: set<Key>)
      requires CommitReady(s) && MidJournal(s, oldest, done) && s.journal.Values !! s.saved
      requires node.Id() in s.journal && node == s.journal[node.Id()] && node.Id() !in done
      ensures MidRest(s, node) && KeyOK(s.env, node.Id()) && Ascending(node.versions) && node.versions == s.Versions(node.Id())
      ensures node !in s.saved && forall k :: k in s.journal && k != node.Id() ==> s.journal[k] != node
    {
      assert MidNode(s, oldest, false, node);
      PendingListShape(s, oldest, node.Id());
    }

    method PruneList(node: TreeNode, oldest: Option<nat>)
      requires Ascending(node.versions)
      modifies node`versions
      ensures node.versions == PruneTo(old(node.versions), oldest)
    {
      if oldest.Some? {
        var freed := node.Prune(oldest.value);
      }
    }

    method StoreRecord(batch: Batch, key: Key, record: Record, oldest: Option<nat>, ghost s: TreeState, ghost done: set<Key>)
      requires batch.db == db && StagedOK(s, oldest, done, batch.Staged()) && KeyOK(s.env, key)
      requires WrittenOK(s.env, s.m, record, s.journal.Keys, s.now, s.ver, oldest, key)
      modifies batch, db
      ensures batch.Staged() == old(batch.Staged())[NodeKey(key) := Stored(record)]
      ensures StagedOK(s, oldest, done + {key}, batch.Staged()) && Flushes(batch, record)
    {
      hide WrittenOK, StagedOK;
      StagedStep(s, oldest, done, batch.Staged(), key, record);
      batch.Set(NodeKey(key), Stored(record), valueLength(Stored(record)));
      if batch.size > batchSizeLimit {
        batch.Write();
        batch.Reset();
      }
    }

    /** A batch that has grown beyond the limit has been written, any other has not. */
    twostate predicate Flushes(batch: Batch, record: Record)
      reads db, batch, batch.db
    {
      if old(batch.size) + valueLength(Stored(record)) > batchSizeLimit
      then batch.size == 0 && batch.writes == [] && db.db == batch.Staged()
      else batch.size == old(batch.size) + valueLength(Stored(record)) && db.db == old(db.db)
    }

    /** Writes all nodes of the journal, in any order. */
    method WriteJournal(batch: Batch, oldest: Option<nat>, ghost s: TreeState)
      requires Midway(s, oldest, {}, batch) && s.journal.Values !! s.saved
      modifies this`dbCache, journal.Values, batch, db
      ensures Midway(s, oldest, journal.Keys, batch) && forall n :: n in journal.Values ==> n.temporary == old(n.temporary)
    {
      hide SparseMerkleTree.Midway;
      var todo := journal.Keys;
      ghost var done := {};
      while todo != {}
        invariant Midway(s, oldest, done, batch) && journal == old(journal)
        invariant todo !! done && todo + done == journal.Keys
        invariant forall n :: n in journal.Values ==> n.temporary == old(n.temporary)
        decreases todo
      {
        var key :| key in todo;
        NodeAt(s, oldest, done, batch, key);
        WriteNode(batch, journal[key], oldest, s, done);
        todo, done := todo - {key}, done + {key};
      }
      assert done == journal.Keys;
    }

    lemma NodeAt(s: TreeState, oldest: Option<nat>, done: set<Key>, batch: Batch, key: Key)
      requires Midway(s, oldest, done, batch) && key in journal
      ensures s.journal == journal && s.journal[key].Id() == key && batch.db == db
    {
    }

    lemma StagedIsWritten(s: TreeState, oldest: Option<nat>, t: Table, t': Table)
      requires StagedOK(s, oldest, s.journal.Keys, t) && forall key :: RecAt(t', key) == RecAt(t, key)
      ensures Written(s.env, s.m, t', s.journal.Keys, s.now, s.ver, oldest)
    {
      hide WrittenOK;
      forall key | KeyOK(s.env, key) ensures KeyWritten(s.env, s.m, t', s.journal.Keys, s.now, s.ver, oldest, key) {
        assert KeyStaged(s, oldest, s.journal.Keys, t, key);
      }
    }

    /** The history once a commit has made `newVer` the newest version on offer. The pending
        changes carry the version they were made for, which may be another one. */
    ghost function HistAfter(newVer: nat): Hist
      requires Valid()
      reads this, db, saved, journal.Values, dbCache.Values
    {
      var last := if newVer > LastWritten() then newVer else LastWritten();
      if journal == map[] then Extend(hist, |hist|, pending, last) else Extend(hist, pendingVersion, pending, last)
    }

    /** The newest version there are changes for. */
    ghost function LastWritten(): nat
      reads this
    {
      if journal == map[] then version else pendingVersion
    }

    lemma HistLength(newVer: nat)
      requires Valid()
      ensures |HistAfter(newVer)| == (if newVer > LastWritten() then newVer else LastWritten()) + 1
    {
    }

    /** The version list of the root once the pending changes are committed. */
    ghost function RootsAfter(oldest: Option<nat>): seq<VersionInfo>
      reads this, db
    {
      var vs := VersionsAt(db.db, ROOT_KEY);
      if journal == map[] then vs else PruneTo(vs + [VersionInfo(pendingVersion, TreeHash(env, pending))], oldest)
    }

    /** The store has the version, the oldest version if one was given, and the leaves written. */
    twostate predicate CellsSet(newVer: nat, oldest: Option<nat>)
      reads this, db
    {
      && Cell(db.db, LatestVersionKey) == Some(Number(newVer))
      && Cell(db.db, RecentVersionKey) == (if oldest.Some? then Some(Number(oldest.value)) else old(Cell(db.db, RecentVersionKey)))
      && StoredLeaves(env, db.db) == old(StoredLeaves(env, db.db)) + old(LeavesIn(env, journal.Keys))
    }

    /** No stale node is left in memory, if there is a version to release; and only nodes that
        are stale then have been emptied. */
    twostate predicate Releases(releaseVersion: nat)
      reads this, saved, root
    {
      && (releaseVersion > 0 ==> Swept(saved, root, releaseVersion, env.maxDepth))
      && forall n :: n in saved && n in old(Owned()) && n.temporary && !old(n.temporary) ==> releaseVersion > 0 && Stale(n, releaseVersion)
    }

    /** Commits the pending snapshot as a new version. `oldest` is the oldest version that has
        to stay readable; `releaseVersion` is whatever the memory scheduler decided on, zero
        for nothing. The tree is in order afterwards if and only if the new version is not older
        than the newest one there are changes for; otherwise what has been written for later
        versions is in the store, and the root shows it, but no version on offer has it. */
    method CommitWithNewVersion(oldest: Option<nat>, newVersion: Option<nat>, releaseVersion: nat) returns (r: Result<nat>)
      requires Valid()
      modifies this, saved, journal.Values, db
      ensures Kept() && root.Root() == TreeHash(env, pending) && fresh(Owned() - old(Owned()))
      ensures var newVer := if newVersion.None? then old(version) + 1 else newVersion.value;
        if (oldest.Some? && newVer <= oldest.value) || (oldest.None? && newVer <= old(version)) then (
          && r == Err(VersionTooLow) && hist == old(hist) && pending == old(pending) && floor == old(floor)
          && recentVersion == old(recentVersion) && version == old(version) && journal == old(journal)
          && pendingVersion == old(pendingVersion) && Valid() && db.db == old(db.db)
        ) else (
          && r == Ok(newVer) && version == newVer && hist == old(HistAfter(newVer))
          && pending == old(pending) == Newest(hist) && journal == map[] && floor == Raise(old(floor), oldest)
          && recentVersion == (if oldest.Some? then oldest.value else old(recentVersion))
          && VersionsAt(db.db, ROOT_KEY) == old(RootsAfter(oldest)) && CellsSet(newVer, oldest) && Releases(releaseVersion)
          && ListsWritten(env, old(db.db), db.db, old(journal).Keys, old(pending), old(pendingVersion), oldest)
          && (Valid() <==> newVer >= old(LastWritten()))
        )
    {
      hide SparseMerkleTree.Kept, SparseMerkleTree.Valid, TreeHash, PruneTo, Extend;
      ValidIsKept();
      var newVer := if newVersion.None? then version + 1 else newVersion.value;
      if oldest.Some? && newVer <= oldest.value {
        return Err(VersionTooLow);
      }
      if oldest.None? && newVer <= version {
        return Err(VersionTooLow);
      }
      HistLength(newVer);
      CommitJournal(newVer, oldest, releaseVersion);
      KeptIsValid();
      r := Ok(newVer);
    }

    lemma RootsAre(s: TreeState, oldest: Option<nat>)
      requires Valid() && s == State().(ver := if journal == map[] then |hist| else pendingVersion)
      ensures RootsAfter(oldest) == if journal == map[] then VersionsAt(s.m, ROOT_KEY) else PruneTo(s.Versions(ROOT_KEY), oldest)
    {
    }

    /** Writes the journal and makes `newVer` the newest version on offer. */
    method CommitJournal(newVer: nat, oldest: Option<nat>, releaseVersion: nat)
      requires Valid() && (oldest.Some? ==> oldest.value < newVer) && (oldest.None? ==> newVer > version)
      modifies this, saved, journal.Values, db
      ensures Kept() && root == lastSaveRoot && fresh(Owned() - old(Owned()))
      ensures version == newVer && hist == old(HistAfter(newVer)) && pending == old(pending) && journal == map[]
      ensures floor == Raise(old(floor), oldest) && recentVersion == if oldest.Some? then oldest.value else old(recentVersion)
      ensures VersionsAt(db.db, ROOT_KEY) == old(RootsAfter(oldest)) && pending == Newest(hist)
      ensures CellsSet(newVer, oldest) && Releases(releaseVersion)
      ensures ListsWritten(env, old(db.db), db.db, old(journal).Keys, old(pending), old(pendingVersion), oldest)
    {
      hide SparseMerkleTree.Valid, SparseMerkleTree.ShellFor, SparseMerkleTree.Midway, SparseMerkleTree.Kept,
        TreeHash, PruneTo, CommitsTo, TreeState.Versions, ListsWritten, StoredLeaves, LeavesIn, Swept, Stale, Extend;
      ghost var s := State().(ver := if journal == map[] then |hist| else pendingVersion);
      var batch := db.NewBatch();
      CommitStarts(s, oldest, batch, newVer);
      RootsAre(s, oldest);
      WriteJournal(batch, oldest, s);
      ghost var last := if newVer > LastWritten() then newVer else LastWritten();
      FinishCommit(batch, newVer, oldest, releaseVersion, s, last);
      WrittenFor(env, s.m, db.db, old(journal).Keys, old(pending), s.ver, old(pendingVersion), oldest);
    }

    /** With nothing pending a tree whose committed part is in order is in order, if its history
        ends with the newest version on offer. */
    lemma KeptIsValid()
      requires Kept() && journal == map[] && root == lastSaveRoot && pending == Newest(hist)
      ensures Valid() <==> |hist| == version + 1
      ensures root.Root() == TreeHash(env, pending)
    {
      ResetNodes(SavedState(), State());
      assert State().Live(root);
      State().LiveRoot(root);
    }

    method Commit(oldest: Option<nat>, releaseVersion: nat) returns (r: Result<nat>)
      requires Valid()
      modifies this, saved, journal.Values, db
      ensures Kept() && root.Root() == TreeHash(env, pending) && fresh(Owned() - old(Owned()))
      ensures if oldest.Some? && old(version) + 1 <= oldest.value then (
          && r == Err(VersionTooLow) && hist == old(hist) && pending == old(pending) && floor == old(floor)
          && recentVersion == old(recentVersion) && version == old(version) && journal == old(journal)
          && pendingVersion == old(pendingVersion) && Valid()
        ) else (
          && r == Ok(version) && version == old(version) + 1 && hist == old(HistAfter(version + 1))
          && pending == old(pending) == Newest(hist) && journal == map[] && floor == Raise(old(floor), oldest)
          && recentVersion == (if oldest.Some? then oldest.value else old(recentVersion))
          && VersionsAt(db.db, ROOT_KEY) == old(RootsAfter(oldest)) && CellsSet(version, oldest) && Releases(releaseVersion)
          && ListsWritten(env, old(db.db), db.db, old(journal).Keys, old(pending), old(pendingVersion), oldest)
          && (Valid() <==> old(journal) == map[] || old(pendingVersion) == version)
        )
    {
      r := CommitWithNewVersion(oldest, None, releaseVersion);
    }

    lemma CommitStarts(s: TreeState, oldest: Option<nat>, batch: Batch, newVer: nat)
      requires Valid() && (oldest.Some? ==> oldest.value < newVer) && s == State().(ver := if journal == map[] then |hist| else pendingVersion)
      requires batch.db == db && batch.writes == []
      ensures Midway(s, oldest, {}, batch) && s.journal.Values !! s.saved
      ensures CommitsTo(s, oldest, if newVer > LastWritten() then newVer else LastWritten())
      ensures ShellFor(s.m) && !lastSaveRoot.temporary && lastSaveRoot !in journal.Values
    {
      hide PackSpec, DbOK, Closed, Agree;
      forall key | key in journal ensures MidNode(s, oldest, false, journal[key]) {
        assert State().PendingNode(journal[key]);
      }
      forall n | n in saved ensures s.SavedNode(n) {
        SavedSame(State(), s, n);
      }
      forall key | KeyOK(s.env, key) ensures KeyStaged(s, oldest, {}, db.db, key) {
      }
      forall leaf | leaf in dbCache ensures LeafMid(s, {}, db.db, leaf, dbCache[leaf]) {
        assert CachedLeaf(env, db.db, leaf, dbCache[leaf]);
      }
      assert batch.Staged() == db.db;
    }

    /** The last writes of a commit, and the switch to the new committed state. */
    method FinishCommit(batch: Batch, newVer: nat, oldest: Option<nat>, releaseVersion: nat, ghost s: TreeState, ghost last: nat)
      requires Midway(s, oldest, journal.Keys, batch) && ShellFor(s.m) && !lastSaveRoot.temporary
      requires s == TreeState(env, s.m, hist, floor, pending, s.ver, saved, journal) && CommitsTo(s, oldest, last)
      requires newVer <= last && (if oldest.Some? then oldest.value < newVer else newVer > version)
      modifies this, saved, journal.Values, db, batch
      ensures Kept() && saved <= old(Owned()) && root == lastSaveRoot
      ensures version == newVer && journal == map[] && pending == old(pending) && floor == Raise(old(floor), oldest)
      ensures recentVersion == if oldest.Some? then oldest.value else old(recentVersion)
      ensures hist == Extend(old(hist), s.ver, old(pending), last) && pending == Newest(hist)
      ensures VersionsAt(db.db, ROOT_KEY) == if old(journal) == map[] then VersionsAt(s.m, ROOT_KEY) else PruneTo(s.Versions(ROOT_KEY), oldest)
      ensures CellsAfter(db.db, s.m, old(journal).Keys, newVer, oldest) && Releases(releaseVersion)
      ensures ListsWritten(env, s.m, db.db, old(journal).Keys, old(pending), s.ver, oldest)
    {
      hide CommitReady, CommitsTo, Written, MidJournal, TreeState.Nodes, TreeState.AllSaved, CellsOK, CachedLeaf,
        PruneTo, TreeState.Versions, ListsWritten,
        SparseMerkleTree.Kept, SparseMerkleTree.ShellFor, SparseMerkleTree.Midway, Extend, Raise, SparseMerkleTree.CacheAgrees;
      VersionsFit(s, oldest, last);
      WriteCells(batch, newVer, oldest, s);
      CommitDone(s, db.db, newVer, oldest, last);
      SwitchTo(newVer, oldest, releaseVersion, Committed(s, db.db, oldest, last));
    }

    ghost predicate CellsAfter(m': Table, m: Table, dirty: set<Key>, newVer: nat, oldest: Option<nat>) {
      && Cell(m', LatestVersionKey) == Some(Number(newVer))
      && Cell(m', RecentVersionKey) == (if oldest.Some? then Some(Number(oldest.value)) else Cell(m, RecentVersionKey))
      && StoredLeaves(env, m') == StoredLeaves(env, m) + LeavesIn(env, dirty)
    }

    lemma VersionsFit(s: TreeState, oldest: Option<nat>, last: nat)
      requires CommitsTo(s, oldest, last)
      ensures |s.hist| <= s.ver <= last + 1 && KeyOK(s.env, ROOT_KEY)
    {
    }

    /** What the last write leaves to be taken over. */
    lemma CommitDone(s: TreeState, m': Table, newVer: nat, oldest: Option<nat>, last: nat)
      requires ShellFor(s.m) && !lastSaveRoot.temporary && CommitsTo(s, oldest, last)
      requires s == TreeState(env, s.m, hist, floor, pending, s.ver, saved, journal)
      requires newVer <= last && (if oldest.Some? then oldest.value < newVer else newVer > version)
      requires s.AllSaved() && MidJournal(s, oldest, journal.Keys)
      requires Written(env, s.m, m', journal.Keys, s.now, s.ver, oldest)
      ensures var t := Committed(s, m', oldest, last);
        && t.Nodes() && t.saved <= saved + journal.Values && Newest(t.hist) == pending && newVer < |t.hist|
        && (if oldest.Some? then oldest.value else recentVersion) <= t.floor
        && (if oldest.Some? then oldest.value else recentVersion) <= newVer
        && root in t.saved && root.Id() == ROOT_KEY && !root.temporary
      ensures VersionsAt(m', ROOT_KEY) == if journal == map[] then VersionsAt(s.m, ROOT_KEY) else PruneTo(s.Versions(ROOT_KEY), oldest)
      ensures ListsWritten(env, s.m, m', journal.Keys, pending, s.ver, oldest)
    {
      hide ListsWritten;
      CommitKeepsNodes(s, m', oldest, last);
      WrittenLists(env, s.m, m', journal.Keys, pending, s.ver, oldest);
      NewestCommitted(s, oldest, last);
      RootCommitted(s, oldest);
      RootWritten(s, m', oldest);
    }

    lemma RootWritten(s: TreeState, m': Table, oldest: Option<nat>)
      requires Written(s.env, s.m, m', s.journal.Keys, s.now, s.ver, oldest) && (s.journal != map[] ==> ROOT_KEY in s.journal)
      ensures VersionsAt(m', ROOT_KEY) ==
        if s.journal == map[] then VersionsAt(s.m, ROOT_KEY) else PruneTo(s.Versions(ROOT_KEY), oldest)
    {
      WrittenList(s.env, s.m, m', s.journal.Keys, s.now, s.ver, oldest, ROOT_KEY);
    }

    /** The fields take the values of the committed state; memory may be released. */
    method SwitchTo(newVer: nat, oldest: Option<nat>, releaseVersion: nat, ghost t: TreeState)
      requires t.Nodes() && t.env == env && t.m == db.db && t.journal == map[] && t.saved <= saved + journal.Values
      requires t.now == pending && Newest(t.hist) == pending && newVer < |t.hist|
      requires CellsOK(db.db, newVer, if oldest.Some? then oldest.value else recentVersion)
      requires (if oldest.Some? then oldest.value else recentVersion) <= t.floor
      requires (if oldest.Some? then oldest.value else recentVersion) <= newVer
      requires root in t.saved && root.Id() == ROOT_KEY && !root.temporary
      requires CacheAgrees(db.db)
      modifies this, saved, journal.Values
      ensures Kept() && saved == t.saved && root == lastSaveRoot && Releases(releaseVersion)
      ensures version == newVer && hist == t.hist && pending == old(pending) && journal == map[] && floor == t.floor
      ensures recentVersion == if oldest.Some? then oldest.value else old(recentVersion)
    {
      hide TreeState.Nodes, CellsOK, CachedLeaf, Swept, Stale;
      NodesShape(t);
      if releaseVersion > 0 {
        ReleaseNodes(root, releaseVersion, t, dbCache);
      }
      TakeOver(newVer, oldest, t);
      ResetNodes(t, SavedState());
    }

    lemma NodesShape(t: TreeState)
      requires t.Nodes()
      ensures t.env.Valid() && t.floor < |t.hist|
    {
    }

    method TakeOver(newVer: nat, oldest: Option<nat>, ghost t: TreeState)
      modifies this
      ensures version == newVer && recentVersion == if oldest.Some? then oldest.value else old(recentVersion)
      ensures journal == map[] && root == lastSaveRoot == old(root) && dbCache == old(dbCache)
      ensures hist == t.hist && floor == t.floor && pending == old(pending) && pendingVersion == t.ver && saved == t.saved
    {
      version := newVer;
      if oldest.Some? {
        recentVersion := oldest.value;
      }
      journal := map[];
      lastSaveRoot := root;
      hist, floor, pendingVersion, saved := t.hist, t.floor, t.ver, t.saved;
    }

    /** Releasing memory is invisible: the nodes and the cache stand for the same tree. */
    method ReleaseNodes(root: TreeNode, releaseVersion: nat, ghost t: TreeState, ghost cache: map<nat, TreeNode>)
      requires t.Nodes() && t.journal == map[] && root in t.saved && !root.temporary
      requires forall leaf :: leaf in cache ==> CachedLeaf(t.env, t.m, leaf, cache[leaf])
      modifies t.saved
      ensures t.Nodes() && !root.temporary
      ensures forall leaf :: leaf in cache ==> CachedLeaf(t.env, t.m, leaf, cache[leaf])
      ensures Swept(t.saved, root, releaseVersion, t.env.maxDepth) && OnlyEmptied(t.saved, releaseVersion)
    {
      hide TreeState.Ready, TreeState.SavedNode;
      ghost var done := Release(root, releaseVersion, t);
      HandledIsSwept(t.saved, done, root, releaseVersion, t.env.maxDepth);
    }

    lemma RootCommitted(s: TreeState, oldest: Option<nat>)
      requires ShellFor(s.m) && !lastSaveRoot.temporary && CommitReady(s) && MidJournal(s, oldest, journal.Keys)
      requires s == TreeState(env, s.m, hist, floor, pending, s.ver, saved, journal)
      ensures root in SavedAfter(s) && root.Id() == ROOT_KEY && !root.temporary
    {
      if journal != map[] {
        assert MidNode(s, oldest, true, journal[ROOT_KEY]);
      }
    }

    method WriteCells(batch: Batch, newVer: nat, oldest: Option<nat>, ghost s: TreeState)
      requires Midway(s, oldest, journal.Keys, batch) && ShellFor(s.m)
      modifies db, batch
      ensures CommitReady(s) && s.AllSaved() && MidJournal(s, oldest, journal.Keys)
      ensures Written(env, s.m, db.db, journal.Keys, s.now, s.ver, oldest)
      ensures CellsOK(db.db, newVer, if oldest.Some? then oldest.value else recentVersion)
      ensures CacheAgrees(db.db) && CellsAfter(db.db, s.m, journal.Keys, newVer, oldest)
    {
      hide TreeState.AllSaved, MidJournal, CommitReady, Written, StagedOK, SparseMerkleTree.CacheMid, CachedLeaf,
        CellsOK, SparseMerkleTree.ShellFor;
      ghost var t := batch.Staged();
      FlushCells(batch, newVer, oldest);
      StagedIsWritten(s, oldest, t, db.db);
      CellsWritten(s, newVer, oldest, t, db.db);
      CellsAre(s, newVer, oldest, t, db.db);
      CacheKept(s, t, db.db);
    }

    method FlushCells(batch: Batch, newVer: nat, oldest: Option<nat>)
      requires batch.db == db
      modifies db, batch
      ensures db.db == var t := old(batch.Staged())[LatestVersionKey := Number(newVer)];
                       if oldest.Some? then t[RecentVersionKey := Number(oldest.value)] else t
    {
      batch.Set(LatestVersionKey, Number(newVer), 8);
      if oldest.Some? {
        batch.Set(RecentVersionKey, Number(oldest.value), 8);
      }
      batch.Write();
      batch.Reset();
    }

    lemma CellsWritten(s: TreeState, newVer: nat, oldest: Option<nat>, t: Table, t': Table)
      requires ShellFor(s.m) && CommitReady(s) && s.env == env && s.journal == journal && StagedOK(s, oldest, journal.Keys, t)
      requires t' == var c := t[LatestVersionKey := Number(newVer)];
                     if oldest.Some? then c[RecentVersionKey := Number(oldest.value)] else c
      ensures CellsOK(t', newVer, if oldest.Some? then oldest.value else recentVersion)
    {
      hide DbOK, KeyStaged, Agree;
      forall key | NodeKey(key) in t' ensures t'[NodeKey(key)].Stored? && Under(key, ROOT_KEY) {
        assert NodeKey(key) in t;
        if key in journal {
          ClosedIsRooted(env, journal.Keys, key);
        }
      }
    }

    lemma CellsAre(s: TreeState, newVer: nat, oldest: Option<nat>, t: Table, t': Table)
      requires ShellFor(s.m) && CommitReady(s) && s.env == env && s.journal == journal && StagedOK(s, oldest, journal.Keys, t)
      requires t' == var c := t[LatestVersionKey := Number(newVer)];
                     if oldest.Some? then c[RecentVersionKey := Number(oldest.value)] else c
      ensures CellsAfter(t', s.m, journal.Keys, newVer, oldest)
    {
      hide DbOK, Agree, Closed, WrittenOK;
      forall k: nat ensures k in StoredLeaves(env, t') <==> k in StoredLeaves(env, s.m) + LeavesIn(env, journal.Keys) {
        LeafStaged(s, oldest, t, k);
        assert NodeKey(LeafKey(env, k)) in t' <==> NodeKey(LeafKey(env, k)) in t;
        InStored(t', k);
        InStored(s.m, k);
        assert k in LeavesIn(env, journal.Keys) <==> LeafKey(env, k) in journal;
      }
    }

    lemma InStored(m: Table, k: nat)
      ensures k in StoredLeaves(env, m) <==> NodeKey(LeafKey(env, k)) in m
    {
    }

    lemma LeafStaged(s: TreeState, oldest: Option<nat>, t: Table, k: nat)
      requires ShellFor(s.m) && s.env == env && StagedOK(s, oldest, s.journal.Keys, t)
      ensures NodeKey(LeafKey(env, k)) in t <==> NodeKey(LeafKey(env, k)) in s.m || LeafKey(env, k) in s.journal
    {
      hide WrittenOK;
      assert KeyStaged(s, oldest, s.journal.Keys, t, LeafKey(env, k));
    }

    lemma CacheKept(s: TreeState, t: Table, t': Table)
      requires CacheMid(s, journal.Keys, t) && s.env == env && forall key :: RecAt(t', key) == RecAt(t, key)
      ensures forall leaf :: leaf in dbCache ==> CachedLeaf(env, t', leaf, dbCache[leaf])
    {
      forall leaf | leaf in dbCache ensures CachedLeaf(env, t', leaf, dbCache[leaf]) {
        SameLeaf(s, t, t', leaf);
      }
    }

    lemma SameLeaf(s: TreeState, t: Table, t': Table, leaf: nat)
      requires CacheMid(s, journal.Keys, t) && s.env == env && leaf in dbCache
      requires RecAt(t', LeafKey(env, leaf)) == RecAt(t, LeafKey(env, leaf))
      ensures CachedLeaf(env, t', leaf, dbCache[leaf])
    {
      assert LeafMid(s, journal.Keys, t, leaf, dbCache[leaf]);
    }

    /** Pruning one node of the journal leaves all others as they were. */
    lemma NodePruned(s: TreeState, oldest: Option<nat>, done: set<Key>, key: Key)
      requires CommitReady(s) && key in s.journal
      requires forall k :: k in s.journal && k != key ==> MidNode(s, oldest, k in done, s.journal[k])
      requires MidNode(s, oldest, true, s.journal[key])
      ensures MidJournal(s, oldest, done + {key})
    {
      hide CommitReady, MidNode;
    }

    lemma StagedStep(s: TreeState, oldest: Option<nat>, done: set<Key>, t: Table, key: Key, record: Record)
      requires StagedOK(s, oldest, done, t) && KeyOK(s.env, key)
      requires WrittenOK(s.env, s.m, record, s.journal.Keys, s.now, s.ver, oldest, key)
      ensures StagedOK(s, oldest, done + {key}, t[NodeKey(key) := Stored(record)])
    {
      hide WrittenOK;
      var t' := t[NodeKey(key) := Stored(record)];
      forall k | KeyOK(s.env, k) ensures KeyStaged(s, oldest, done + {key}, t', k) {
        assert KeyStaged(s, oldest, done, t, k);
      }
    }

    /** The cache agrees with `t`, except that the leaf `n` stands for itself. */
    ghost predicate CacheBut(t: Table, n: TreeNode)
      reads this, dbCache.Values
    {
      forall leaf :: leaf in dbCache ==>
        if LeafKey(env, leaf) == n.Id() then dbCache[leaf] == n else CachedLeaf(env, t, leaf, dbCache[leaf])
    }

    /** A committed node about to be taken back, with all objects below it. */
    ghost predicate BackPre(child: TreeNode, v: nat, batch: Batch, s: TreeState, nodes: set<TreeNode>)
      reads this, db, batch, nodes, dbCache.Values
    {
      && CanGoBack(s, v) && s.env == env && batch.db == db
      && child in nodes && !child.temporary
      && (forall n :: n in nodes ==> Under(n.Id(), child.Id()) && s.(saved := nodes).SavedNode(n))
      && SubtreeUnread(s, db.db, batch.Staged(), child.Id())
      && NodesTyped(db.db) && NodesTyped(batch.Staged()) && CacheAgrees(batch.Staged())
    }

    ghost predicate BackPost(child: TreeNode, v: nat, batch: Batch, s: TreeState, kept: set<TreeNode>, d0: Table, t0: Table)
      requires CanGoBack(s, v)
      reads this, db, batch, kept, child, dbCache.Values
    {
      && batch.db == db && KeyOK(s.env, child.Id()) && SubtreeTurned(s, v, batch.Staged(), child.Id())
      && OutsideAlone(d0, t0, db.db, batch.Staged(), child.Id())
      && CellsAlone(t0, batch.Staged()) && NodesTyped(db.db)
      && child in kept && !child.temporary
      && (forall n :: n in kept ==> Under(n.Id(), child.Id()) && BackNode(s, v, batch.Staged(), kept, n))
      && CacheAgrees(batch.Staged())
    }

    ghost predicate BackMid(child: TreeNode, i: nat, v: nat, batch: Batch, s: TreeState,
                            rest: set<TreeNode>, kept: set<TreeNode>, d0: Table, t0: Table)
      reads this, db, batch, rest, kept, child, child.children, dbCache.Values
    {
      && CanGoBack(s, v) && s.env == env && batch.db == db
      && NodeMid(s, v, rest, kept, child, i)
      && TablesMid(s, v, d0, t0, db.db, batch.Staged(), child.Id(), i) && NodeKey(child.Id()) in t0
      && NodesMid(s, v, batch.Staged(), rest, kept, child.Id(), i)
      && (0 < i ==> child.Packed())
      && CacheBut(batch.Staged(), child)
    }

    /** Takes one node and everything below it back to version `v`. It stops at nodes that have
        not changed since. `kept` are the node objects that stand for the state after. */
    method RollbackNode(child: TreeNode, v: nat, batch: Batch, ghost s: TreeState, ghost nodes: set<TreeNode>)
      returns (ghost kept: set<TreeNode>)
      requires BackPre(child, v, batch, s, nodes)
      modifies nodes, batch, db, this`dbCache
      ensures BackPost(child, v, batch, s, kept, old(db.db), old(batch.Staged()))
      ensures fresh(kept - nodes)
      decreases env.maxDepth - child.depth, 3
    {
      hide SparseMerkleTree.BackMid;
      var next := TruncateNode(child, v, batch, s, nodes);
      if !next {
        kept := nodes;
        return;
      }
      ghost var rest := Strictly(nodes, child.Id());
      rest, kept := RollbackChildren(child, v, batch, s, rest, db.db, batch.Staged());
      hide SparseMerkleTree.BackPre, SparseMerkleTree.BackPost;
      kept := StoreBack(child, v, batch, s, rest, kept, old(db.db), old(batch.Staged()));
    }

    /** Drops the newer versions of the node itself, and puts a leaf into the cache again if
        it was there. Without newer versions the subtree is as it was at `v`. */
    method TruncateNode(child: TreeNode, v: nat, batch: Batch, ghost s: TreeState, ghost nodes: set<TreeNode>)
      returns (next: bool)
      requires BackPre(child, v, batch, s, nodes)
      modifies child`versions, this`dbCache
      ensures !next ==> BackPost(child, v, batch, s, nodes, db.db, batch.Staged())
      ensures next ==> BackMid(child, 0, v, batch, s, Strictly(nodes, child.Id()), {}, db.db, batch.Staged())
    {
      var freed;
      next, freed := child.Rollback(v);
      if !next {
        StaysQuiet(child, v, batch, s, nodes);
        return;
      }
      if child.depth == env.maxDepth && child.path in dbCache {
        CacheAdd(child.path, child);
      }
      BackStarts(child, v, batch, s, nodes);
    }

    lemma StaysQuiet(child: TreeNode, v: nat, batch: Batch, s: TreeState, nodes: set<TreeNode>)
      requires BackPre(child, v, batch, s, nodes) && Latest(VersionsAt(s.m, child.Id())) <= v
      ensures BackPost(child, v, batch, s, nodes, db.db, batch.Staged())
    {
      var t, top := batch.Staged(), child.Id();
      assert s.(saved := nodes).SavedNode(child);
      QuietSubtreeTurned(s, v, db.db, t, top);
      forall n | n in nodes ensures BackNode(s, v, t, nodes, n) {
        QuietNodes(s, v, db.db, t, top, nodes, n);
      }
    }

    /** The node itself has been truncated, nothing below it has been touched yet. */
    lemma BackStarts(child: TreeNode, v: nat, batch: Batch, s: TreeState, nodes: set<TreeNode>)
      requires CanGoBack(s, v) && s.env == env && batch.db == db && child in nodes
      requires forall n :: n in nodes ==> Under(n.Id(), child.Id())
      requires forall n :: n in nodes && n != child ==> s.(saved := nodes).SavedNode(n)
      requires child.env == env && KeyOK(env, child.Id()) && child.Shape() && !child.temporary
      requires child.versions == Truncated(VersionsAt(s.m, child.Id()), v)
      requires if child.depth == env.maxDepth then forall j :: 0 <= j < 16 ==> child.children[j] == null
               else forall j :: 0 <= j < 16 ==> s.(saved := nodes).ChildSaved(child.Id().Child(j), child.children[j])
      requires SubtreeUnread(s, db.db, batch.Staged(), child.Id()) && VersionsAt(s.m, child.Id()) != []
      requires NodesTyped(db.db) && NodesTyped(batch.Staged()) && CacheBut(batch.Staged(), child)
      ensures BackMid(child, 0, v, batch, s, Strictly(nodes, child.Id()), {}, db.db, batch.Staged())
    {
      var id := child.Id();
      NodesStart(s, v, batch.Staged(), nodes, id);
      TablesStart(s, v, db.db, batch.Staged(), id);
      assert Unread(s, db.db, batch.Staged(), id);
      if child.depth != env.maxDepth {
        forall j | 0 <= j < 16 ensures s.(saved := Strictly(nodes, id)).ChildSaved(id.Child(j), child.children[j]) {
          assert s.(saved := nodes).ChildSaved(id.Child(j), child.children[j]);
        }
      }
    }

    method RollbackChildren(child: TreeNode, v: nat, batch: Batch, ghost s: TreeState, ghost rest0: set<TreeNode>,
                            ghost d0: Table, ghost t0: Table)
      returns (ghost rest: set<TreeNode>, ghost kept: set<TreeNode>)
      requires BackMid(child, 0, v, batch, s, rest0, {}, d0, t0)
      modifies child, rest0, batch, db, this`dbCache
      ensures BackMid(child, 16, v, batch, s, rest, kept, d0, t0)
      ensures fresh(rest - rest0) && fresh(kept - rest0)
      decreases env.maxDepth - child.depth, 2
    {
      hide SparseMerkleTree.BackMid;
      rest, kept := rest0, {};
      for i := 0 to 16
        invariant BackMid(child, i, v, batch, s, rest, kept, d0, t0)
        invariant fresh(rest - rest0) && fresh(kept - rest0)
      {
        rest, kept := RollbackChild(child, i, v, batch, s, rest, kept, d0, t0);
      }
    }

    method RollbackChild(child: TreeNode, i: nat, v: nat, batch: Batch, ghost s: TreeState,
                         ghost rest: set<TreeNode>, ghost kept: set<TreeNode>, ghost d0: Table, ghost t0: Table)
      returns (ghost rest': set<TreeNode>, ghost kept': set<TreeNode>)
      requires i < 16 && BackMid(child, i, v, batch, s, rest, kept, d0, t0)
      modifies child, rest, batch, db, this`dbCache
      ensures BackMid(child, i + 1, v, batch, s, rest', kept', d0, t0)
      ensures fresh(rest' - rest) && fresh(kept' - kept - rest)
      decreases env.maxDepth - child.depth, 1
    {
      rest', kept' := rest, kept;
      if child.children[i] != null {
        rest', kept' := RollbackBranch(child, i, v, batch, s, rest, kept, d0, t0);
      } else {
        rest' := rest - Part(rest, child.Id(), i);
        BranchSkipped(child, i, v, batch, s, rest, kept, d0, t0);
      }
      Recompute(child, i + 1, v, batch, s, rest', kept', d0, t0);
    }

    /** The internals are recomputed after each child. */
    method Recompute(child: TreeNode, i: nat, v: nat, batch: Batch, ghost s: TreeState,
                     ghost rest: set<TreeNode>, ghost kept: set<TreeNode>, ghost d0: Table, ghost t0: Table)
      requires BackMid0(child, i, v, batch, s, rest, kept, d0, t0)
      modifies child`internals
      ensures BackMid(child, i, v, batch, s, rest, kept, d0, t0)
    {
      hide CanGoBack, TreeState.SavedNode, TablesMid, TreeState.ChildSaved;
      assert child !in rest && child !in kept;
      child.ComputeInternalHash();
    }

    ghost predicate BackMid0(child: TreeNode, i: nat, v: nat, batch: Batch, s: TreeState,
                            rest: set<TreeNode>, kept: set<TreeNode>, d0: Table, t0: Table)
      reads this, db, batch, rest, kept, child, child.children, dbCache.Values
    {
      && CanGoBack(s, v) && s.env == env && batch.db == db
      && NodeMid(s, v, rest, kept, child, i)
      && TablesMid(s, v, d0, t0, db.db, batch.Staged(), child.Id(), i) && NodeKey(child.Id()) in t0
      && NodesMid(s, v, batch.Staged(), rest, kept, child.Id(), i)
      && CacheBut(batch.Staged(), child)
    }

    lemma BranchSkipped(child: TreeNode, i: nat, v: nat, batch: Batch, s: TreeState,
                        rest: set<TreeNode>, kept: set<TreeNode>, d0: Table, t0: Table)
      requires i < 16 && BackMid(child, i, v, batch, s, rest, kept, d0, t0) && child.children[i] == null
      ensures BackMid0(child, i + 1, v, batch, s, rest - Part(rest, child.Id(), i), kept, d0, t0)
    {
      var d, t, id := db.db, batch.Staged(), child.Id();
      if child.depth != env.maxDepth {
        assert s.(saved := rest).ChildSaved(id.Child(i), child.children[i]);
      }
      TablesSkip(s, v, d0, t0, d, t, id, i);
      NodesStep(s, v, d, t, d, t, id, i, rest, kept, {});
      NodeStep(s, v, rest, kept, {}, child, i);
      assert kept + {} == kept;
    }

    /** Makes sure that the child about to be taken back is in memory. */
    method ExtendBranch(child: TreeNode, i: nat, v: nat, batch: Batch, ghost s: TreeState,
                        ghost rest: set<TreeNode>, ghost kept: set<TreeNode>, ghost d0: Table, ghost t0: Table)
      returns (ghost rest': set<TreeNode>)
      requires i < 16 && BackMid(child, i, v, batch, s, rest, kept, d0, t0) && child.children[i] != null
      modifies child`children
      ensures BackMid0(child, i, v, batch, s, rest', kept, d0, t0)
      ensures rest <= rest' && fresh(rest' - rest)
      ensures var c := child.children[i]; c != null && c in rest' && c.Id() == child.Id().Child(i) && !c.temporary
      ensures Interior(env, child.Id())
    {
      hide CanGoBack, RecordOK, PackSpec, CachedLeaf, Brought, SubtreeTurned, SubtreeUnread, ChildrenAlone,
        CellsAlone, TreeState.SavedWith, Truncated;
      var subChild := child.children[i];
      ghost var id := child.Id();
      BranchFacts(child, i, v, batch, s, rest, kept, d0, t0);
      assert child !in rest && child !in kept;
      ghost var was := child.children;
      ghost var added := LoadChild(child, i, subChild.path, child.depth + 4, false);
      rest' := rest + added;
      if was[i].temporary {
        BroughtSame(s.env, db.db, s.m, id.Child(i), child.children[i], added);
        NodesGrow(s, v, batch.Staged(), rest, kept, id, i, child.children[i], added);
      } else {
        assert rest' == rest;
      }
      forall j | i <= j < 16 ensures s.(saved := rest').ChildSaved(id.Child(j), child.children[j]) {
        assert s.(saved := rest).ChildSaved(id.Child(j), was[j]);
      }
    }

    /** The child to be taken back is a committed node, and its record has not been touched. */
    lemma BranchFacts(child: TreeNode, i: nat, v: nat, batch: Batch, s: TreeState,
                      rest: set<TreeNode>, kept: set<TreeNode>, d0: Table, t0: Table)
      requires i < 16 && BackMid(child, i, v, batch, s, rest, kept, d0, t0) && child.children[i] != null
      ensures Interior(env, child.Id()) && KeyOK(env, child.Id().Child(i)) && v < |s.hist|
      ensures var c := child.children[i];
        && c in rest && c.Id() == child.Id().Child(i)
        && (c.temporary ==> RecAt(db.db, c.Id()).Some?)
      ensures RecAt(db.db, child.Id().Child(i)) == RecAt(s.m, child.Id().Child(i))
      ensures NodeKey(child.Id().Child(i)) in db.db ==> db.db[NodeKey(child.Id().Child(i))].Stored?
      ensures forall r :: RecAt(db.db, child.Id().Child(i)) == Some(r) ==>
        |r.children| == 16 && |r.internals| == 14 && r.path == child.Id().Child(i).path
    {
      hide PackSpec, CachedLeaf, SubtreeTurned, Truncated, Turned;
      var id, subChild := child.Id(), child.children[i];
      assert s.(saved := rest).ChildSaved(id.Child(i), subChild);
      assert s.(saved := rest).SavedNode(subChild);
      assert SubtreeUnread(s, db.db, batch.Staged(), id.Child(i));
      assert Unread(s, db.db, batch.Staged(), id.Child(i));
      assert RecordOK(s.env, s.m, s.Last(), id.Child(i));
    }

    lemma BroughtSame(env: Env, m: Table, m': Table, id: Key, c: TreeNode?, added: set<TreeNode>)
      requires Brought(env, m, id, c, added) && RecAt(m', id) == RecAt(m, id)
      ensures Brought(env, m', id, c, added)
    {
    }

    method RollbackBranch(child: TreeNode, i: nat, v: nat, batch: Batch, ghost s: TreeState,
                          ghost rest: set<TreeNode>, ghost kept: set<TreeNode>, ghost d0: Table, ghost t0: Table)
      returns (ghost rest': set<TreeNode>, ghost kept': set<TreeNode>)
      requires i < 16 && BackMid(child, i, v, batch, s, rest, kept, d0, t0) && child.children[i] != null
      modifies child, rest, batch, db, this`dbCache
      ensures BackMid0(child, i + 1, v, batch, s, rest', kept', d0, t0)
      ensures fresh(rest' - rest) && fresh(kept' - kept - rest)
      decreases env.maxDepth - child.depth, 0
    {
      hide CanGoBack, SubtreeTurned, TablesMid, CachedLeaf, Under, TreeState.SavedWith, TreeState.ChildSaved,
        Truncated, CellsAlone, OutsideAlone;
      ghost var grown := ExtendBranch(child, i, v, batch, s, rest, kept, d0, t0);
      ghost var d, t := db.db, batch.Staged();
      ghost var part := Part(grown, child.Id(), i);
      BranchReady(child, i, v, batch, s, grown, kept, d0, t0);
      ghost var more := RollbackNode(child.children[i], v, batch, s, part);
      rest', kept' := grown - part, kept + more;
      BranchTaken(child, i, v, batch, s, grown, kept, more, d0, t0, d, t);
    }

    lemma BranchReady(child: TreeNode, i: nat, v: nat, batch: Batch, s: TreeState,
                      rest: set<TreeNode>, kept: set<TreeNode>, d0: Table, t0: Table)
      requires i < 16 && BackMid0(child, i, v, batch, s, rest, kept, d0, t0) && Interior(env, child.Id())
      requires var c := child.children[i]; c != null && c in rest && c.Id() == child.Id().Child(i) && !c.temporary
      ensures BackPre(child.children[i], v, batch, s, Part(rest, child.Id(), i))
      ensures child !in rest && child !in kept && rest !! kept
    {
      assert v < |s.hist|;
      hide CanGoBack, Unread, KeyAlone, CachedLeaf;
      hide TreeState.ChildSaved;
      forall n | n in Part(rest, child.Id(), i) ensures s.(saved := Part(rest, child.Id(), i)).SavedNode(n) {
        PartSaved(s, v, batch.Staged(), rest, kept, child.Id(), i, n);
      }
      hide TreeState.SavedNode;
    }

    lemma BranchTaken(child: TreeNode, i: nat, v: nat, batch: Batch, s: TreeState,
                      rest: set<TreeNode>, kept: set<TreeNode>, more: set<TreeNode>, d0: Table, t0: Table, d: Table, t: Table)
      requires i < 16 && CanGoBack(s, v) && s.env == env && batch.db == db && Interior(env, child.Id())
      requires NodeMid(s, v, rest, kept, child, i) && child.children[i] != null
      requires TablesMid(s, v, d0, t0, d, t, child.Id(), i) && NodeKey(child.Id()) in t0
      requires forall n :: n in rest ==> Below(n.Id(), child.Id(), i, 16)
      requires forall n :: n in rest && n !in Part(rest, child.Id(), i) ==> s.(saved := rest).SavedNode(n)
      requires forall n :: n in kept ==> Below(n.Id(), child.Id(), 0, i) && BackNode(s, v, t, kept, n)
      requires BackPost(child.children[i], v, batch, s, more, d, t) && child.children[i].Id() == child.Id().Child(i)
      ensures BackMid0(child, i + 1, v, batch, s, rest - Part(rest, child.Id(), i), kept + more, d0, t0)
    {
      assert v < |s.hist|;
      hide CanGoBack, Turned, KeyAlone, CachedLeaf, TreeState.ChildSaved;
      var d', t', id := db.db, batch.Staged(), child.Id();
      hide SubtreeTurned, CellsAlone, TablesMid, OutsideAlone;
      TablesStep(s, v, d0, t0, d, t, d', t', id, i);
      NodesStep(s, v, d, t, d', t', id, i, rest, kept, more);
      NodeStep(s, v, rest, kept, more, child, i);
      hide NodesMid, TreeState.SavedNode;
    }

    lemma BackFacts(child: TreeNode, v: nat, batch: Batch, s: TreeState, rest: set<TreeNode>, kept: set<TreeNode>, d0: Table, t0: Table)
      requires BackMid(child, 16, v, batch, s, rest, kept, d0, t0)
      ensures v < |s.hist| && KeyOK(s.env, child.Id()) && s.env == env && batch.db == db && NodeKey(child.Id()) in t0
    {
    }

    method StoreBack(child: TreeNode, v: nat, batch: Batch, ghost s: TreeState, ghost rest: set<TreeNode>, ghost kept: set<TreeNode>,
                     ghost d0: Table, ghost t0: Table)
      returns (ghost kept': set<TreeNode>)
      requires BackMid(child, 16, v, batch, s, rest, kept, d0, t0)
      modifies batch, db
      ensures BackPost(child, v, batch, s, kept', d0, t0) && kept' == {child} + kept
    {
      hide CanGoBack, BackNode, TreeState.SavedNode, TreeState.ChildSaved, TurnedPointer, SubtreeTurned,
        CachedLeaf, RecordBackOK, ShownPack;
      BackFacts(child, v, batch, s, rest, kept, d0, t0);
      ghost var d, t := db.db, batch.Staged();
      var id := child.Id();
      var record := child.ToRecord();
      RecordBack(s, v, t, rest, kept, child);
      forall x | x in {child} + kept
        ensures Under(x.Id(), id) && BackNode(s, v, t[NodeKey(id) := Stored(record)], {child} + kept, x)
      {
        NodesEnd(s, v, t, rest, kept, child, x);
      }
      StoreOne(batch, id, record);
      TablesEnd(s, v, d0, t0, d, t, id, db.db, record);
      kept' := {child} + kept;
      CacheTurned(t, child, record);
    }

    /** Puts one record into the batch, which is flushed when it has grown too large. */
    method StoreOne(batch: Batch, id: Key, record: Record)
      requires batch.db == db
      modifies batch, db
      ensures batch.Staged() == old(batch.Staged())[NodeKey(id) := Stored(record)] && Flushes(batch, record)
      ensures db.db == old(db.db) || db.db == batch.Staged()
    {
      batch.Set(NodeKey(id), Stored(record), valueLength(Stored(record)));
      if batch.size > batchSizeLimit {
        batch.Write();
        batch.Reset();
      }
    }

    lemma CacheTurned(t: Table, child: TreeNode, record: Record)
      requires CacheBut(t, child) && record.versions == child.versions
      ensures CacheAgrees(t[NodeKey(child.Id()) := Stored(record)])
    {
    }

    // ---- setting many leaves ----

    /** The tree is as it was, and the copies are in order. */
    ghost predicate Aside(w: Work)
      reads this, db, saved, journal.Values, dbCache.Values, w.tmp.Values, w.s.saved
    {
      && Valid() && w.s == State() && w.ver > version && w.TmpOK() && w.tmp.Values !! dbCache.Values
    }

    /** One level of one item's way down: the node is copied and marked, the next node is
        read if it is not in memory. */
    method LevelStep(target: TreeNode, nibble: nat, tmp: Journal, ghost w: Work)
      returns (next: TreeNode, tmp': Journal, ghost w': Work)
      requires Aside(w) && w.tmp == tmp && OnTheWay(w, target) && target.depth < env.maxDepth && nibble < 16
      modifies this`saved, target`children, tmp.Values
      ensures Aside(w') && fresh(tmp'.Values - tmp.Values) && fresh(saved - old(saved)) && old(saved) <= saved
      ensures w' == w.(s := w'.s, marks := w.marks + iset{At(target.Id())} + SlotsAbove(target.Id(), nibble), tmp := tmp')
      ensures w'.s == w.s.(saved := saved)
      ensures State().Live(next) && !next.temporary && next.Id() == target.Id().Child(nibble)
      ensures forall id :: id in tmp ==> id in tmp' && tmp'[id] == tmp[id]
    {
      hide SparseMerkleTree.Valid, Work.MarksOK, Work.NodeOK, TreeState.PendingNode, SlotsAbove, At, Pos.IsSlot, TreeState.Live;
      LiveFacts(target, w);
      tmp', w' := PlaceNode(tmp, target, nibble, w);
      next, w' := ExtendBeside(target, nibble, w');
    }

    /** The end of one item's way down. */
    method LeafStepped(target: TreeNode, val: Digest, newVersion: nat, tmp: Journal, ghost w: Work)
      returns (leaf: TreeNode, tmp': Journal, ghost w': Work)
      requires Aside(w) && w.tmp == tmp && OnTheWay(w, target) && target.depth == env.maxDepth && newVersion == w.ver
      modifies tmp.Values
      ensures Aside(w') && fresh(tmp'.Values - tmp.Values) && Copied(tmp', leaf) && leaf.Id() == target.Id()
      ensures w' == w.(marks := w.marks + iset{At(target.Id())}, filled := w.filled[At(target.Id()) := val], tmp := tmp')
      ensures forall id :: id in tmp ==> id in tmp' && tmp'[id] == tmp[id]
    {
      hide SparseMerkleTree.Valid, Work.MarksOK, Work.NodeOK, TreeState.PendingNode, At, Pos.IsSlot, TreeState.Live;
      LiveFacts(target, w);
      OldList(target.Id());
      assert env.maxDepth > 0;
      tmp', w' := PlaceLeaf(tmp, target, val, newVersion, w);
      CopiesFit(w');
      leaf := tmp'[target.Id()];
    }

    lemma OldList(id: Key)
      requires Valid() && KeyOK(env, id)
      ensures Latest(VersionsAt(db.db, id)) <= version && env.maxDepth > 0
    {
      assert ListOK(env, db.db, hist, floor, id);
    }

    /** Bringing a node of the tree into memory does not disturb the copies. */
    method ExtendBeside(target: TreeNode, nibble: nat, ghost w: Work) returns (next: TreeNode, ghost w': Work)
      requires Valid() && w.s == State() && w.TmpOK()
      requires State().Live(target) && !target.temporary && Interior(env, target.Id()) && nibble < 16
      modifies this`saved, target`children
      ensures Valid() && w'.TmpOK() && w' == w.(s := State())
      ensures old(saved) <= saved && fresh(saved - old(saved))
      ensures State().Live(next) && !next.temporary && next.Id() == target.Id().Child(nibble)
    {
      hide SparseMerkleTree.Valid, Work.MarksOK, Work.NodeOK, TreeState.SavedNode;
      ExtendNode(target, nibble);
      next := target.children[nibble];
      w' := w.(s := State());
      WorkMono(w, w');
    }

    lemma LiveFacts(n: TreeNode, w: Work)
      requires Aside(w) && State().Live(n) && !n.temporary
      ensures State().PendingNode(n) && env.Valid() && n !in w.tmp.Values && w.tmp.Values !! saved && w.tmp.Values !! journal.Values
    {
      State().LiveIsPending(n);
    }

    /** In the middle of placing many leaves. */
    ghost predicate Placing(w: Work, vals: map<nat, Digest>, prog: map<nat, nat>,
                            running: map<nat, Walk>, leaves: map<nat, TreeNode>)
      reads this, db, saved, journal.Values, dbCache.Values, w.tmp.Values, w.s.saved
    {
      Aside(w) && Traced(w, vals, prog) && Walking(w.s, w.tmp, vals, prog, running, leaves)
    }

    lemma WalkFacts(w: Work, vals: map<nat, Digest>, prog: map<nat, nat>, running: map<nat, Walk>, leaves: map<nat, TreeNode>, k: nat)
      requires Placing(w, vals, prog, running, leaves) && k in running
      ensures OnTheWay(w, running[k].target) && w.s.env == env
      ensures k in prog && k in vals && WalkOK(w.s, vals[k], prog[k], k, running[k])
      ensures if running[k].depth == env.maxDepth then running[k].target.Id() == LeafKey(env, k) else running[k].depth + 4 <= env.maxDepth
      ensures w.s.saved == saved && w.s.journal == journal && w.tmp.Values !! saved && w.tmp.Values !! journal.Values
    {
      hide SparseMerkleTree.Valid, Traced, Walking, WalkOK, OnTheWay, Work.MarksOK, Work.NodeOK;
      AsideEnv(w);
      WalkAt(w, vals, prog, running, leaves, k);
    }

    lemma AsideEnv(w: Work)
      requires Aside(w)
      ensures w.s.env == env && env.Valid()
    {
    }

    method StepToLeaf(key: nat, tmp: Journal, newVersion: nat, running: map<nat, Walk>, leaves: map<nat, TreeNode>,
                      ghost w: Work, ghost vals: map<nat, Digest>, ghost prog: map<nat, nat>)
      returns (tmp': Journal, running': map<nat, Walk>, leaves': map<nat, TreeNode>, ghost w': Work, ghost prog': map<nat, nat>)
      requires Placing(w, vals, prog, running, leaves) && key in running && tmp == w.tmp && newVersion == w.ver
      requires running[key].depth == env.maxDepth
      modifies tmp.Values
      ensures Placing(w', vals, prog', running', leaves') && w'.tmp == tmp' && w'.ver == w.ver && fresh(tmp'.Values - tmp.Values)
      ensures prog'.Keys == prog.Keys && Unplaced(env, vals, prog') < Unplaced(env, vals, prog)
    {
      hide SparseMerkleTree.Aside, Traced, Walking, OnTheWay, PathAt, Unplaced;
      var walk := running[key];
      WalkFacts(w, vals, prog, running, leaves, key);
      var leaf;
      leaf, tmp', w' := LeafStepped(walk.target, walk.val, newVersion, tmp, w);
      prog' := prog[key := env.maxDepth + 1];
      LeafTaken(w, w', vals, prog, key);
      WalkEnds(w.s, tmp, tmp', vals, prog, running, leaves, key, leaf);
      leaves' := leaves[key := leaf];
      running' := running - {key};
    }

    method StepDown(key: nat, tmp: Journal, running: map<nat, Walk>, ghost leaves: map<nat, TreeNode>,
                    ghost w: Work, ghost vals: map<nat, Digest>, ghost prog: map<nat, nat>)
      returns (tmp': Journal, running': map<nat, Walk>, ghost w': Work, ghost prog': map<nat, nat>)
      requires Placing(w, vals, prog, running, leaves) && key in running && tmp == w.tmp
      requires running[key].depth != env.maxDepth
      modifies this`saved, saved, journal.Values, tmp.Values
      ensures Placing(w', vals, prog', running', leaves) && w'.tmp == tmp' && w'.ver == w.ver
      ensures fresh(saved - old(saved)) && fresh(tmp'.Values - tmp.Values)
      ensures prog'.Keys == prog.Keys && Unplaced(env, vals, prog') < Unplaced(env, vals, prog)
    {
      hide SparseMerkleTree.Aside, Traced, Walking, OnTheWay, PathAt, Unplaced, SlotsAbove;
      var walk := running[key];
      WalkFacts(w, vals, prog, running, leaves, key);
      var nibble := PathAt(env, key, walk.depth + 4) % 16;
      var next;
      next, tmp', w' := LevelStep(walk.target, nibble, tmp, w);
      prog' := prog[key := walk.depth + 4];
      PathAtParent(env, key, walk.depth);
      LevelTaken(w, w', vals, prog, key);
      WalkGoesOn(w.s, w'.s, tmp, tmp', vals, prog, running, leaves, key, Walk(walk.val, next, walk.depth + 4));
      running' := running[key := Walk(walk.val, next, walk.depth + 4)];
    }

    /** One item takes one step: a level down, or its leaf at the end. */
    method StepWalk(key: nat, tmp: Journal, newVersion: nat, running: map<nat, Walk>, leaves: map<nat, TreeNode>,
                    ghost w: Work, ghost vals: map<nat, Digest>, ghost prog: map<nat, nat>)
      returns (tmp': Journal, running': map<nat, Walk>, leaves': map<nat, TreeNode>, ghost w': Work, ghost prog': map<nat, nat>)
      requires Placing(w, vals, prog, running, leaves) && key in running && tmp == w.tmp && newVersion == w.ver
      modifies this`saved, saved, journal.Values, tmp.Values
      ensures Placing(w', vals, prog', running', leaves') && w'.tmp == tmp' && w'.ver == w.ver
      ensures fresh(saved - old(saved)) && fresh(tmp'.Values - tmp.Values)
      ensures prog'.Keys == prog.Keys && Unplaced(env, vals, prog') < Unplaced(env, vals, prog)
    {
      hide SparseMerkleTree.Placing, Unplaced;
      if running[key].depth == env.maxDepth {
        tmp', running', leaves', w', prog' := StepToLeaf(key, tmp, newVersion, running, leaves, w, vals, prog);
      } else {
        tmp', running', w', prog' := StepDown(key, tmp, running, leaves, w, vals, prog);
        leaves' := leaves;
      }
    }

    /** An item sets out from the root. */
    lemma SetsOut(w: Work, vals: map<nat, Digest>, prog: map<nat, nat>, running: map<nat, Walk>, leaves: map<nat, TreeNode>, k: nat)
      requires Placing(w, vals, prog, running, leaves) && k in vals && k !in prog && k < Pow2(env.maxDepth)
      ensures Placing(w, vals, prog[k := 0], running[k := Walk(vals[k], root, 0)], leaves)
    {
      RootAside(w);
      hide SparseMerkleTree.Aside, Traced, Walking, PathAt, Pow2;
      KeyInRange(k);
      WalkStarts(w, vals, prog, k);
      WalkBegins(w.s, w.tmp, vals, prog, running, leaves, k, Walk(vals[k], root, 0));
    }

    lemma RootAside(w: Work)
      requires Aside(w)
      ensures w.s.Live(root) && !root.temporary && root.Id() == ROOT_KEY && w.s.env == env
    {
      RootIsLive();
    }

    lemma PlacingStarts(newVersion: nat, vals: map<nat, Digest>)
      requires Valid() && newVersion > version && (journal != map[] ==> newVersion == pendingVersion)
      ensures Placing(Work(State(), newVersion, iset{}, map[], map[]), vals, map[], map[], map[])
    {
      assert MarksBy(env, map[]) == iset{};
      assert Reached(env, map[]) == {};
    }

    /** Phase one: every item walks down from the root to its leaf. Items are submitted in
        order; which of those under way takes the next step is left open. If a key is out of
        range no more items are submitted; whether those under way still reach their leaves
        before the call returns is up to the scheduler, which `follow` stands for. */
    method PlaceItems(items: seq<Item>, newVersion: nat, follow: bool)
      returns (error: Option<Error>, tmp: Journal, leaves: map<nat, TreeNode>, ghost w: Work, ghost prog: map<nat, nat>,
               ghost under: map<nat, Walk>)
      requires Valid() && newVersion > version && (journal != map[] ==> newVersion == pendingVersion) && Distinct(items)
      modifies this`saved, saved, journal.Values
      ensures fresh(saved - old(saved)) && fresh(tmp.Values)
      ensures Placing(w, SetAll(map[], items), prog, under, leaves) && w.tmp == tmp && w.ver == newVersion
      ensures error == if AllInRange(env, items) then None else Some(InvalidKey)
      ensures prog.Keys == Submitted(env, items) && (error.None? || follow ==> under == map[])
    {
      ghost var vals := SetAll(map[], items);
      hide SparseMerkleTree.Placing, SparseMerkleTree.Valid, Unplaced, Pow2, SetAll, KeysOf, Distinct, Accepted, AllInRange;
      PlacingStarts(newVersion, vals);
      var running: map<nat, Walk> := map[];
      error, tmp, leaves, w, prog := None, map[], map[], Work(State(), newVersion, iset{}, map[], map[]), map[];
      var next := 0;
      assert KeysOf(items, 0) == {} by { NoKeys(items); }
      while (error.None? && next < |items|) || running != map[]
        invariant next <= |items| && Placing(w, vals, prog, running, leaves)
        invariant w.tmp == tmp && w.ver == newVersion && fresh(tmp.Values) && fresh(saved - old(saved))
        invariant prog.Keys == KeysOf(items, next) && forall i :: 0 <= i < next ==> items[i].key < Pow2(env.maxDepth)
        invariant error.Some? ==> error == Some(InvalidKey) && next < |items| && items[next].key >= Pow2(env.maxDepth)
        decreases |items| - next, if error.None? then 1 else 0, Unplaced(env, vals, prog)
      {
        var submit: bool := *;
        if error.None? && next < |items| && (submit || running == map[]) {
          var item := items[next];
          if item.key >= Pow2(env.maxDepth) {
            error := Some(InvalidKey);
            if !follow {
              break;
            }
          } else {
            NextKey(items, next);
            SetsOut(w, vals, prog, running, leaves, item.key);
            running, prog := running[item.key := Walk(item.val, root, 0)], prog[item.key := 0];
            next := next + 1;
          }
        } else {
          var key :| key in running;
          tmp, running, leaves, w, prog := StepWalk(key, tmp, newVersion, running, leaves, w, vals, prog);
        }
      }
      AcceptedIs(env, items, next);
      under := running;
    }

    /** Leaving the items where they are. Their copies are dropped, but a leaf that was pending
        before shares its list with its copy: it shows the value of the item from now on, while
        everything above it stays as it was. Only if no value changes the tree is still in
        order. */
    method LeaveItems(ghost items: seq<Item>, tmp: Journal, ghost w: Work, ghost vals: map<nat, Digest>, ghost prog: map<nat, nat>,
                      ghost running: map<nat, Walk>, ghost leaves: map<nat, TreeNode>)
      requires Placing(w, vals, prog, running, leaves) && tmp == w.tmp && vals == SetAll(map[], items)
      modifies journal.Values
      ensures Valid() <==> Undisturbed(env, pending, journal.Keys, items, leaves.Keys)
      ensures forall k :: k in leaves && LeafKey(env, k) in journal ==> k in vals && journal[LeafKey(env, k)].Root() == vals[k]
      ensures root.Root() == TreeHash(env, pending) && Kept()
    {
      hide SparseMerkleTree.Kept, SparseMerkleTree.Placing, SparseMerkleTree.Valid, SparseMerkleTree.ShowsAfter,
        Undisturbed, SetAll, HaveIds, ThroughCopy, TreeHash, LeafHash;
      LeaveFacts(w, vals, prog, running, leaves);
      ValidIsKept();
      RootNotLeaf();
      ThroughLists(items, w, vals, leaves.Keys);
      RootNotDropped(tmp);
      ReachOriginals(journal, tmp);
      assert root.versions == old(root.versions);
      if !Undisturbed(env, pending, journal.Keys, items, leaves.Keys) {
        SomeSpoiled(items, w, vals, leaves.Keys);
      }
    }

    /** What the shared lists turn into: those of leaves take the values of the items. */
    lemma ThroughLists(items: seq<Item>, w: Work, vals: map<nat, Digest>, placed: set<nat>)
      requires vals == SetAll(map[], items)
      requires forall k :: k in placed ==> k in vals && LeafKey(env, k) in w.tmp
      requires forall id :: id in w.tmp && id.depth == env.maxDepth ==> id.path in placed
      requires forall id :: id in journal && id in w.tmp ==> ShowsAfter(w, vals, id)
      ensures forall id :: id in journal && id in w.tmp ==>
        && journal[id] != w.tmp[id]
        && (id.depth != env.maxDepth || Undisturbed(env, pending, journal.Keys, items, placed) ==>
             ThroughCopy(journal[id].versions, w.tmp[id].versions) == journal[id].versions)
      ensures forall k :: k in placed && LeafKey(env, k) in journal ==>
        ThroughCopy(journal[LeafKey(env, k)].versions, w.tmp[LeafKey(env, k)].versions)
          == VersionsAt(db.db, LeafKey(env, k)) + [VersionInfo(w.ver, vals[k])]
    {
      hide ThroughCopy, VersionsAt, SetAll;
      forall id | id in journal && id in w.tmp
        ensures journal[id] != w.tmp[id]
        ensures id.depth != env.maxDepth || Undisturbed(env, pending, journal.Keys, items, placed) ==>
             ThroughCopy(journal[id].versions, w.tmp[id].versions) == journal[id].versions
      {
        assert ShowsAfter(w, vals, id);
        assert id.depth == env.maxDepth ==> id == LeafKey(env, id.path);
      }
      forall k | k in placed && LeafKey(env, k) in journal
        ensures ThroughCopy(journal[LeafKey(env, k)].versions, w.tmp[LeafKey(env, k)].versions)
          == VersionsAt(db.db, LeafKey(env, k)) + [VersionInfo(w.ver, vals[k])]
      {
        assert ShowsAfter(w, vals, LeafKey(env, k));
      }
    }

    lemma SomeSpoiled(items: seq<Item>, w: Work, vals: map<nat, Digest>, placed: set<nat>)
      requires vals == SetAll(map[], items)
      requires !Undisturbed(env, pending, journal.Keys, items, placed)
      requires forall k :: k in placed ==> k in vals
      requires forall k :: k in placed && LeafKey(env, k) in journal ==>
        journal[LeafKey(env, k)].versions == VersionsAt(db.db, LeafKey(env, k)) + [VersionInfo(w.ver, vals[k])]
      ensures !Valid()
    {
      var k :| k in placed && k in vals && LeafKey(env, k) in journal && vals[k] != LeafHash(env, pending, k);
      Spoiled(k, w.ver, vals[k]);
    }

    /** The root is not among the nodes that have copies, unless it has one itself. */
    lemma RootNotGone(before: Journal, copies: Journal)
      requires HaveIds(before) && before.Values !! saved
      requires if root in saved then true else ROOT_KEY in copies && root == copies[ROOT_KEY] && root.Id() == ROOT_KEY
      ensures root !in WithCopies(before, copies)
    {
    }

    /** Dropped copies of the root leave it as it was. */
    lemma RootNotDropped(copies: Journal)
      requires HaveIds(journal) && journal.Values !! saved && (journal == map[] ==> root in saved)
      requires journal != map[] ==> ROOT_KEY in journal && root == journal[ROOT_KEY]
      ensures root in WithCopies(journal, copies) ==> ROOT_KEY in copies && ROOT_KEY in journal && root == journal[ROOT_KEY]
    {
    }

    lemma RootNotLeaf()
      requires Valid()
      ensures env.maxDepth > 0 && (journal == map[] ==> root in saved) && (journal != map[] ==> ROOT_KEY in journal && root == journal[ROOT_KEY])
      ensures journal.Values !! saved && journal.Values !! dbCache.Values
    {
    }

    /** A pending leaf that shows another value than the pending one. */
    lemma Spoiled(k: nat, ver: nat, val: Digest)
      requires LeafKey(env, k) in journal && val != LeafHash(env, pending, k)
      requires journal[LeafKey(env, k)].versions == VersionsAt(db.db, LeafKey(env, k)) + [VersionInfo(ver, val)]
      ensures !Valid()
    {
      var vs := VersionsAt(db.db, LeafKey(env, k));
      assert (vs + [VersionInfo(ver, val)])[|vs|] == VersionInfo(ver, val);
      assert (vs + [VersionInfo(pendingVersion, LeafHash(env, pending, k))])[|vs|].hash != val;
      if Valid() {
        JournalList(LeafKey(env, k));
      }
    }

    lemma JournalList(id: Key)
      requires Valid() && id in journal
      ensures journal[id].versions == VersionsAt(db.db, id) + [VersionInfo(pendingVersion, KeyHash(env, id, pending))]
      ensures KeyOK(env, id) && journal[id].Id() == id
    {
      assert State().PendingNode(journal[id]);
    }

    /** What the pending nodes show when the items are left where they are. */
    lemma LeaveFacts(w: Work, vals: map<nat, Digest>, prog: map<nat, nat>, running: map<nat, Walk>, leaves: map<nat, TreeNode>)
      requires Placing(w, vals, prog, running, leaves)
      ensures Valid() && HaveIds(journal) && HaveIds(w.tmp)
      ensures forall k :: k in leaves ==> k in vals && LeafKey(env, k) in w.tmp
      ensures forall id :: id in w.tmp && id.depth == env.maxDepth ==> id.path in leaves
      ensures forall id :: id in journal && id in w.tmp ==> ShowsAfter(w, vals, id)
    {
      LeaveIds(w, vals, prog, running, leaves);
      hide SparseMerkleTree.Placing, SparseMerkleTree.Valid, SparseMerkleTree.ShowsAfter;
      forall id | id in journal && id in w.tmp ensures ShowsAfter(w, vals, id) {
        LeaveOne(w, vals, prog, running, leaves, id);
      }
    }

    /** The list of a pending node that has a copy, before and after. */
    ghost predicate ShowsAfter(w: Work, vals: map<nat, Digest>, id: Key)
      requires id in journal && id in w.tmp
      reads this, db, journal.Values, w.tmp.Values
    {
      && journal[id] != w.tmp[id] && KeyOK(env, id)
      && journal[id].versions == VersionsAt(db.db, id) + [VersionInfo(w.ver, KeyHash(env, id, pending))]
      && (id.depth != env.maxDepth ==> ThroughCopy(journal[id].versions, w.tmp[id].versions) == journal[id].versions)
      && (id.depth == env.maxDepth ==>
        && id.path in vals
        && ThroughCopy(journal[id].versions, w.tmp[id].versions) == VersionsAt(db.db, id) + [VersionInfo(w.ver, vals[id.path])])
    }

    lemma LeaveOne(w: Work, vals: map<nat, Digest>, prog: map<nat, nat>, running: map<nat, Walk>, leaves: map<nat, TreeNode>, id: Key)
      requires Placing(w, vals, prog, running, leaves) && id in journal && id in w.tmp
      ensures ShowsAfter(w, vals, id)
    {
      hide SparseMerkleTree.Aside, SparseMerkleTree.Valid, TreeState.Nodes, MarksBy, FilledBy, Walking, VersionsAt, Work.TmpOK;
      LeaveIds(w, vals, prog, running, leaves);
      JournalList(id);
      CopyList(w, id);
      FilledAt(env, vals, prog, leaves, w.filled, id);
      assert journal[id] in journal.Values && w.tmp[id] in w.tmp.Values;
      assert id.depth != env.maxDepth ==> w.List(id) == journal[id].versions;
      Overwrites(VersionsAt(db.db, id), w.ver, KeyHash(env, id, pending), if id.depth == env.maxDepth then vals[id.path] else env.empty);
    }

    lemma Overwrites(vs: seq<VersionInfo>, ver: nat, a: Digest, b: Digest)
      ensures ThroughCopy(vs + [VersionInfo(ver, a)], vs + [VersionInfo(ver, b)]) == vs + [VersionInfo(ver, b)]
      ensures ThroughCopy(vs + [VersionInfo(ver, a)], vs + [VersionInfo(ver, a)]) == vs + [VersionInfo(ver, a)]
    {
      assert (vs + [VersionInfo(ver, a)])[..|vs|] == vs;
    }

    lemma CopyList(w: Work, id: Key)
      requires w.TmpOK() && id in w.tmp
      ensures w.tmp[id].versions == w.List(id) && (w.s.journal != map[] ==> w.s.ver == w.ver)
    {
      assert w.NodeOK(w.tmp[id]);
    }

    lemma LeaveIds(w: Work, vals: map<nat, Digest>, prog: map<nat, nat>, running: map<nat, Walk>, leaves: map<nat, TreeNode>)
      requires Placing(w, vals, prog, running, leaves)
      ensures Valid() && HaveIds(journal) && HaveIds(w.tmp) && w.tmp.Values !! journal.Values
      ensures w.s == State() && w.TmpOK() && w.filled == FilledBy(env, vals, prog)
      ensures forall k :: k in leaves ==> k in vals && LeafKey(env, k) in w.tmp && k in prog && prog[k] > env.maxDepth
      ensures forall k :: k in prog && prog[k] > env.maxDepth ==> k in leaves
      ensures forall id :: id in w.tmp && id.depth == env.maxDepth ==> id.path in leaves
    {
      hide SparseMerkleTree.Valid, Walking, Work.MarksOK, Work.NodeOK, MarksBy, FilledBy;
      OldJournal();
      LeavesAre(w, vals, prog, running, leaves);
    }

    lemma FilledAt(env: Env, vals: map<nat, Digest>, prog: map<nat, nat>, leaves: map<nat, TreeNode>, filled: map<Pos, Digest>, id: Key)
      requires filled == FilledBy(env, vals, prog) && id.depth % 4 == 0
      requires forall k :: k in prog && prog[k] > env.maxDepth <==> k in leaves
      requires forall k :: k in leaves ==> k in vals
      requires id.depth == env.maxDepth ==> id.path in leaves
      ensures At(id) in filled <==> id.depth == env.maxDepth
      ensures At(id) in filled ==> filled[At(id)] == vals[id.path]
    {
    }

    /** What is to be computed once all items have been placed. */
    ghost function JobOf(items: seq<Item>): Job
      reads this
    {
      JobFor(env, pending, journal.Keys, items)
    }

    /** Phase one ends where the protocol starts. */
    lemma Placed(items: seq<Item>, w: Work, prog: map<nat, nat>, leaves: map<nat, TreeNode>, order: seq<nat>)
      requires Placing(w, SetAll(map[], items), prog, map[], leaves) && prog.Keys == SetAll(map[], items).Keys && items != []
      requires forall k :: k in leaves <==> k in order
      ensures Mirror(w, JobOf(items), Start(JobOf(items), order))
    {
      hide SparseMerkleTree.Placing, OnTrack, Job.Marked, Job.Valid, Job.NoStaleSibling, Work.TmpOK,
        TreeState.Nodes, SetAll, Start, MarksBy, FilledBy, Pow2;
      var j, vals := JobOf(items), SetAll(map[], items);
      PlacedTree(w, vals, prog, leaves);
      PlacedJob(items, w, prog, leaves);
      PlacedMarks(j, w.marks, prog);
      PlacedLeaves(items, prog, order);
      OnTrackStart(j, order);
    }

    lemma PlacedTree(w: Work, vals: map<nat, Digest>, prog: map<nat, nat>, leaves: map<nat, TreeNode>)
      requires Placing(w, vals, prog, map[], leaves)
      ensures w.TmpOK() && w.s.Nodes() && w.s == State() && |w.s.hist| <= w.ver
      ensures w.marks == MarksBy(env, prog) && w.filled == FilledBy(env, vals, prog)
      ensures leaves.Keys == prog.Keys && forall k :: k in prog ==> prog[k] == env.maxDepth + 1 && k < Pow2(env.maxDepth)
      ensures env.Valid()
    {
      hide MarksBy, FilledBy;
    }

    lemma PlacedJob(items: seq<Item>, w: Work, prog: map<nat, nat>, leaves: map<nat, TreeNode>)
      requires Placing(w, SetAll(map[], items), prog, map[], leaves) && prog.Keys == SetAll(map[], items).Keys && items != []
      ensures JobOf(items).Valid()
    {
      hide SparseMerkleTree.Placing, TreeState.Nodes, Work.TmpOK, MarksBy, FilledBy, SetAll, PathAt, Pow2;
      PlacedTree(w, SetAll(map[], items), prog, leaves);
      KeysInRange(items);
      JobIsValid(env, pending, journal.Keys, items);
    }

    lemma KeysInRange(items: seq<Item>)
      requires forall k :: k in SetAll(map[], items) ==> k < Pow2(env.maxDepth)
      ensures AllInRange(env, items)
    {
      hide Pow2, SetAll;
      SetAllMerges(map[], items);
      forall i | 0 <= i < |items| ensures items[i].key in SetAll(map[], items) {
      }
    }

    /** Without the condition of the parallel set some run of the workers ends with the root of
        a snapshot that lacks all updates below some node, though a leaf changes there. */
    lemma MultiSetCanLose(items: seq<Item>) returns (order: seq<nat>, schedule: seq<nat>, lost: LeafMap)
      requires Valid() && items != [] && AllInRange(env, items) && !JobOf(items).NoStaleSibling()
      ensures var j := JobOf(items);
        && EndsWith(j, order, schedule, TreeHash(env, lost))
        && exists p :: LooksFinished(j, p) && NothingSetBelow(j, lost, p)
      ensures Injective(env) ==> TreeHash(env, lost) != TreeHash(env, SetAll(pending, items))
    {
      hide SparseMerkleTree.Valid, SetAll, AllInRange, Job.NoStaleSibling, LooksFinished, NothingSetBelow,
        Injective, OldStamps, Job.Valid;
      UsualJob(items);
      order, schedule, lost := UpdatesGetLost(JobOf(items));
    }

    /** With an injective hash the condition is exact: every complete run of the workers ends
        with the root of the new snapshot if and only if it holds. */
    lemma MultiSetRightExactly(items: seq<Item>)
      requires Valid() && items != [] && AllInRange(env, items) && Injective(env)
      ensures var j := JobOf(items);
        (forall order, schedule {:trigger Completes(j, order, schedule)} :: Completes(j, order, schedule) ==> EndsRight(j, order, schedule))
        <==> j.NoStaleSibling()
    {
      hide SparseMerkleTree.Valid, SetAll, AllInRange, Job.NoStaleSibling, Job.Valid, OldStamps, Injective;
      UsualJob(items);
      RightExactly(JobOf(items));
    }

    lemma UsualJob(items: seq<Item>)
      requires Valid() && items != [] && AllInRange(env, items)
      ensures JobOf(items).Valid() && OldStamps(JobOf(items))
    {
      hide SetAll, AllInRange, Job.Valid, OldStamps, TreeState.Nodes, CellsOK;
      JobIsValid(env, pending, journal.Keys, items);
    }

    lemma PlacedMarks(j: Job, marks: iset<Pos>, prog: map<nat, nat>)
      requires marks == MarksBy(j.env, prog) && j.keys == prog.Keys && forall k :: k in prog ==> prog[k] == j.env.maxDepth + 1
      ensures forall p :: p in marks <==> j.Marked(p)
    {
    }

    lemma PlacedLeaves(items: seq<Item>, prog: map<nat, nat>, order: seq<nat>)
      requires prog.Keys == SetAll(map[], items).Keys && forall k :: k in prog ==> prog[k] == env.maxDepth + 1
      ensures FilledBy(env, SetAll(map[], items), prog) == Start(JobOf(items), order).filled
    {
      SetAllMerges(pending, items);
      assert Reached(env, prog) == prog.Keys;
    }

    /** One worker for each leaf, in the order wanted as far as that names leaves. */
    method StartClimbers(leaves: map<nat, TreeNode>, wanted: seq<nat>, ghost tmp: Journal, ghost j: Job)
      returns (climbers: seq<Climber>, ghost order: seq<nat>)
      requires j.env == env && forall k :: k in leaves ==> Copied(tmp, leaves[k]) && leaves[k].Id() == LeafKey(env, k)
      ensures Lists(order, leaves.Keys) && (Lists(wanted, leaves.Keys) ==> order == wanted)
      ensures InStep(tmp, climbers, Start(j, order))
    {
      climbers, order := [], [];
      var todo, next := leaves.Keys, 0;
      while todo != {}
        invariant todo <= leaves.Keys && |climbers| == |order| && OneEach(order)
        invariant forall k :: k in leaves <==> k in order || k in todo
        invariant forall k :: k in order ==> k !in todo
        invariant forall i :: 0 <= i < |order| ==> order[i] in leaves && climbers[i] == AtNode(leaves[order[i]])
        invariant next <= |wanted| && (Lists(wanted, leaves.Keys) ==> order == wanted[..next])
        decreases todo
      {
        var key;
        if next < |wanted| && wanted[next] in todo {
          key := wanted[next];
          next := next + 1;
        } else {
          key :| key in todo;
          ListGoesOn(wanted, leaves.Keys, order, next, key);
        }
        climbers, order := climbers + [AtNode(leaves[key])], order + [key];
        todo := todo - {key};
      }
      ListIsOver(wanted, leaves.Keys, order, next);
    }

    lemma ListGoesOn(wanted: seq<nat>, keys: set<nat>, order: seq<nat>, next: nat, key: nat)
      requires next <= |wanted| && key in keys && key !in order
      ensures Lists(wanted, keys) && order == wanted[..next] ==> next < |wanted| && wanted[next] in keys && wanted[next] !in order
    {
      assert wanted == wanted[..next] + wanted[next..];
    }

    lemma ListIsOver(wanted: seq<nat>, keys: set<nat>, order: seq<nat>, next: nat)
      requires Lists(order, keys) && next <= |wanted| && (Lists(wanted, keys) ==> order == wanted[..next])
      ensures Lists(wanted, keys) ==> order == wanted
    {
      assert next < |wanted| ==> wanted[next] in wanted;
      assert next == |wanted| ==> wanted[..next] == wanted;
    }

    /** Sets many leaves for the pending version. What the workers do is a complete run of the
        protocol, the one the scheduler has chosen if its choice goes that far, and the root
        shows the hash that run ends with. If no stale sibling is in the way, the tree
        afterwards is the tree that setting the items one after the other gives. If a key is out
        of range nothing is set, but the items submitted before it may have reached leaves that
        were pending (`placed`): the tree is still in order if and only if none of them would
        change such a leaf. */
    method MultiSetWithVersion(items: seq<Item>, newVersion: nat, choice: Choice)
      returns (error: Option<Error>, ghost placed: set<nat>, ghost order: seq<nat>, ghost schedule: seq<nat>)
      requires Valid() && newVersion > version && (journal != map[] ==> newVersion == pendingVersion) && Distinct(items)
      modifies this`journal, this`root, this`pending, this`pendingVersion, this`saved, saved, journal.Values
      ensures error == if AllInRange(env, items) then None else Some(InvalidKey)
      ensures Kept() && |hist| == version + 1 && fresh(Owned() - old(Owned()))
      ensures error.None? && (items != [] ==> old(JobOf(items)).NoStaleSibling()) ==> Valid()
      ensures error.None? && items != [] ==> pending == SetAll(old(pending), items) && pendingVersion == newVersion && journal != map[]
      ensures error.None? && items != [] ==> EndsWith(old(JobOf(items)), order, schedule, root.Root())
      ensures error.None? && items != [] && Completes(old(JobOf(items)), choice.order, choice.plan) ==>
        order == choice.order && schedule == choice.plan
      ensures error.None? ==> journal.Keys == old(journal).Keys + WayKeys(env, SetAll(map[], items).Keys)
      ensures error.Some? || items == [] ==> pending == old(pending) && pendingVersion == old(pendingVersion) && journal == old(journal)
      ensures error.Some? ==> LeftBehind(items, placed) && (choice.follow ==> placed == Submitted(env, items))
    {
      hide SparseMerkleTree.Valid, SparseMerkleTree.Kept, SparseMerkleTree.Placing, AllInRange, SetAll, Distinct,
        SparseMerkleTree.LeftBehind,
        EndsWith, Completes, Job.NoStaleSibling, WayKeys, TreeHash, Submitted, JobFor;
      ValidIsKept();
      placed, order, schedule := {}, [], [];
      if items == [] {
        NoItems(env, items);
        NoWays(env, items);
        return None, {}, [], [];
      }
      var tmp, leaves;
      ghost var w, prog, under;
      error, tmp, leaves, w, prog, under := PlaceItems(items, newVersion, choice.follow);
      if error.None? {
        AllPlaced(items, w, prog, leaves);
        order, schedule := RecomputeAll(items, newVersion, tmp, leaves, choice, w, prog);
      } else {
        placed := leaves.Keys;
        LeaveAll(items, tmp, w, prog, under, leaves);
      }
    }

    method MultiSet(items: seq<Item>, choice: Choice)
      returns (error: Option<Error>, ghost placed: set<nat>, ghost order: seq<nat>, ghost schedule: seq<nat>)
      requires Valid() && (journal != map[] ==> pendingVersion == version + 1) && Distinct(items)
      modifies this`journal, this`root, this`pending, this`pendingVersion, this`saved, saved, journal.Values
      ensures error == if AllInRange(env, items) then None else Some(InvalidKey)
      ensures Kept() && |hist| == version + 1 && fresh(Owned() - old(Owned()))
      ensures error.None? && (items != [] ==> old(JobOf(items)).NoStaleSibling()) ==> Valid()
      ensures error.None? && items != [] ==> pending == SetAll(old(pending), items) && pendingVersion == version + 1 && journal != map[]
      ensures error.None? && items != [] ==> EndsWith(old(JobOf(items)), order, schedule, root.Root())
      ensures error.None? && items != [] && Completes(old(JobOf(items)), choice.order, choice.plan) ==>
        order == choice.order && schedule == choice.plan
      ensures error.None? ==> journal.Keys == old(journal).Keys + WayKeys(env, SetAll(map[], items).Keys)
      ensures error.Some? || items == [] ==> pending == old(pending) && pendingVersion == old(pendingVersion) && journal == old(journal)
      ensures error.Some? ==> LeftBehind(items, placed) && (choice.follow ==> placed == Submitted(env, items))
    {
      error, placed, order, schedule := MultiSetWithVersion(items, version + 1, choice);
    }

    /** What a parallel set with a key out of range leaves behind. */
    ghost predicate LeftBehind(items: seq<Item>, placed: set<nat>)
      reads this, db, saved, journal.Values, dbCache.Values, root
    {
      && Kept() && placed <= Submitted(env, items) && root.Root() == TreeHash(env, pending)
      && (forall k :: k in placed && LeafKey(env, k) in journal ==> ShowsItem(items, k))
      && (Valid() <==> Undisturbed(env, pending, journal.Keys, items, placed))
    }

    ghost predicate ShowsItem(items: seq<Item>, k: nat)
      reads this, journal.Values
    {
      LeafKey(env, k) in journal && k in SetAll(map[], items) && journal[LeafKey(env, k)].Root() == SetAll(map[], items)[k]
    }

    lemma AllPlaced(items: seq<Item>, w: Work, prog: map<nat, nat>, leaves: map<nat, TreeNode>)
      requires AllInRange(env, items) && prog.Keys == Submitted(env, items)
      ensures prog.Keys == SetAll(map[], items).Keys
    {
      AllKeys(items);
    }

    method LeaveAll(ghost items: seq<Item>, tmp: Journal, ghost w: Work, ghost prog: map<nat, nat>,
                    ghost under: map<nat, Walk>, ghost leaves: map<nat, TreeNode>)
      requires Placing(w, SetAll(map[], items), prog, under, leaves) && tmp == w.tmp && prog.Keys == Submitted(env, items)
      modifies journal.Values
      ensures LeftBehind(items, leaves.Keys) && Kept() && (under == map[] ==> leaves.Keys == Submitted(env, items))
    {
      hide SparseMerkleTree.Aside, SparseMerkleTree.Valid, Traced, KeysOf, Accepted, SetAll;
      LeaveItems(items, tmp, w, SetAll(map[], items), prog, under, leaves);
    }

    /** Phase two: one worker per leaf recomputes the hashes. */
    method RecomputeAll(ghost items: seq<Item>, newVersion: nat, tmp: Journal, leaves: map<nat, TreeNode>, choice: Choice,
                        ghost w: Work, ghost prog: map<nat, nat>)
      returns (ghost order: seq<nat>, ghost schedule: seq<nat>)
      requires Placing(w, SetAll(map[], items), prog, map[], leaves) && prog.Keys == SetAll(map[], items).Keys && items != []
      requires w.tmp == tmp && w.ver == newVersion
      modifies this`journal, this`root, this`pending, this`pendingVersion, tmp.Values, journal.Values
      ensures Kept() && (old(JobOf(items)).NoStaleSibling() ==> Valid())
      ensures pending == SetAll(old(pending), items) && pendingVersion == newVersion && journal != map[]
      ensures forall n :: n in journal.Values ==> n in old(journal).Values || n in tmp.Values
      ensures journal.Keys == old(journal).Keys + WayKeys(env, SetAll(map[], items).Keys)
      ensures EndsWith(old(JobOf(items)), order, schedule, root.Root())
      ensures Completes(old(JobOf(items)), choice.order, choice.plan) ==> order == choice.order && schedule == choice.plan
    {
      hide SparseMerkleTree.Kept, SparseMerkleTree.Placing, SparseMerkleTree.Valid, SetAll, WayKeys, HaveIds,
        WithCopies, EndsWith,
        Completes, Job.NoStaleSibling;
      var before := journal;
      BesideTree(items, w, prog, leaves);
      order, schedule := RecomputePending(items, newVersion, tmp, leaves, choice, w, prog);
      GoneIsOld(before, journal);
      RootNotGone(before, journal);
      LetGo(before);
    }

    lemma GoneIsOld(before: Journal, after: Journal)
      ensures WithCopies(before, after) <= before.Values
    {
    }

    method RecomputePending(ghost items: seq<Item>, newVersion: nat, tmp: Journal, leaves: map<nat, TreeNode>, choice: Choice,
                            ghost w: Work, ghost prog: map<nat, nat>)
      returns (ghost order: seq<nat>, ghost schedule: seq<nat>)
      requires Placing(w, SetAll(map[], items), prog, map[], leaves) && prog.Keys == SetAll(map[], items).Keys && items != []
      requires w.tmp == tmp && w.ver == newVersion
      modifies this`journal, this`root, this`pending, this`pendingVersion, tmp.Values
      ensures Kept() && (old(JobOf(items)).NoStaleSibling() ==> Valid()) && HaveIds(journal)
      ensures pending == SetAll(old(pending), items) && pendingVersion == newVersion && journal == old(journal) + tmp
      ensures ROOT_KEY in tmp && root == tmp[ROOT_KEY] && root.Id() == ROOT_KEY && tmp.Keys == WayKeys(env, SetAll(map[], items).Keys)
      ensures EndsWith(old(JobOf(items)), order, schedule, root.Root())
      ensures Completes(old(JobOf(items)), choice.order, choice.plan) ==> order == choice.order && schedule == choice.plan
    {
      hide SparseMerkleTree.Kept, SparseMerkleTree.Placing, SparseMerkleTree.Valid, SetAll, TreeState.Nodes,
        CellsOK, CachedLeaf, WayKeys,
        EndsWith, Completes, Job.NoStaleSibling, HaveIds;
      ghost var j := JobOf(items);
      BesideTree(items, w, prog, leaves);
      CopyKeys(w, SetAll(map[], items), prog, leaves);
      ghost var w';
      w', order, schedule := ClimbAll(items, newVersion, tmp, leaves, choice, w, prog);
      BothHaveIds(journal, tmp);
      TakePending(journal + tmp, tmp[ROOT_KEY], j.now, newVersion);
      if j.NoStaleSibling() {
        assert State() == After(w', j);
        ValidAgain();
      }
    }

    lemma BothHaveIds(a: Journal, b: Journal)
      requires HaveIds(a) && HaveIds(b)
      ensures HaveIds(a + b)
    {
    }

    lemma CopyKeys(w: Work, vals: map<nat, Digest>, prog: map<nat, nat>, leaves: map<nat, TreeNode>)
      requires Placing(w, vals, prog, map[], leaves)
      ensures w.tmp.Keys == WayKeys(env, prog.Keys)
    {
      hide SparseMerkleTree.Placing, Work.MarksOK, Work.NodeOK, TreeState.Nodes, FilledBy, MarksBy, WayKeys, Pow2;
      PlacedTree(w, vals, prog, leaves);
      forall id ensures id in w.tmp <==> id in WayKeys(env, prog.Keys) {
        WayKeysAre(env, prog.Keys, id);
        CopyMarked(w, prog, id);
      }
    }

    lemma CopyMarked(w: Work, prog: map<nat, nat>, id: Key)
      requires w.MarksOK() && w.marks == MarksBy(w.s.env, prog) && forall k :: k in prog ==> prog[k] == w.s.env.maxDepth + 1
      ensures id in w.tmp <==> KeyOK(w.s.env, id) && exists k :: k in prog && PathAt(w.s.env, k, id.depth) == id.path
    {
      hide PathAt;
      assert At(id) in w.marks <==> exists k :: k in prog && At(id).level < prog[k] && PathAt(w.s.env, k, At(id).level) == At(id).path;
    }

    method ClimbAll(ghost items: seq<Item>, newVersion: nat, tmp: Journal, leaves: map<nat, TreeNode>, choice: Choice,
                    ghost w: Work, ghost prog: map<nat, nat>)
      returns (ghost w': Work, ghost order: seq<nat>, ghost schedule: seq<nat>)
      requires Placing(w, SetAll(map[], items), prog, map[], leaves) && prog.Keys == SetAll(map[], items).Keys && items != []
      requires w.tmp == tmp && w.ver == newVersion
      modifies tmp.Values
      ensures w' == w.(filled := w'.filled) && HaveIds(tmp) && ROOT_KEY in tmp && tmp[ROOT_KEY].Id() == ROOT_KEY
      ensures EndsWith(JobOf(items), order, schedule, tmp[ROOT_KEY].Root())
      ensures JobOf(items).NoStaleSibling() ==> After(w', JobOf(items)).Nodes()
      ensures Completes(JobOf(items), choice.order, choice.plan) ==> order == choice.order && schedule == choice.plan
    {
      hide SparseMerkleTree.Placing, SparseMerkleTree.Valid, SetAll, Mirror, InStep, TreeState.Nodes, Start,
        Job.NoStaleSibling, Job.Valid, HaveIds;
      ghost var j := JobOf(items);
      BesideTree(items, w, prog, leaves);
      var climbers;
      climbers, order := StartClimbers(leaves, choice.order, tmp, j);
      Placed(items, w, prog, leaves, order);
      LeavesOfJob(items, w, prog, leaves);
      w', schedule := RunClimbers(tmp, climbers, newVersion, choice.plan, w, j, Start(j, order));
      ClimbEnds(w', j, order, schedule);
    }

    lemma LeavesOfJob(items: seq<Item>, w: Work, prog: map<nat, nat>, leaves: map<nat, TreeNode>)
      requires Placing(w, SetAll(map[], items), prog, map[], leaves) && prog.Keys == SetAll(map[], items).Keys && items != []
      ensures leaves.Keys == JobOf(items).keys && JobOf(items).Valid()
    {
      hide SparseMerkleTree.Placing, SetAll, Job.Valid;
      PlacedTree(w, SetAll(map[], items), prog, leaves);
      PlacedJob(items, w, prog, leaves);
    }

    /** When the workers have stopped, the root is published, and if the job was safe all copies
        are right. */
    lemma ClimbEnds(w: Work, j: Job, order: seq<nat>, schedule: seq<nat>)
      requires j.Valid() && Completes(j, order, schedule) && Mirror(w, j, Run(j, Start(j, order), schedule))
      ensures HaveIds(w.tmp) && ROOT_KEY in w.tmp && w.tmp[ROOT_KEY].Id() == ROOT_KEY
      ensures EndsWith(j, order, schedule, w.tmp[ROOT_KEY].Root())
      ensures j.NoStaleSibling() ==> After(w, j).Nodes()
    {
      hide Mirror, Inv, Progress, TreeState.Nodes, Job.NoStaleSibling, Job.Marked, OnTrack, BothReady;
      var st := Run(j, Start(j, order), schedule);
      ProgressStart(j, order);
      ProgressRuns(j, Start(j, order), schedule);
      RootIsDue(j);
      AllFilled(j, st, Pos(0, 0));
      RootPublished(w, j, st);
      if j.NoStaleSibling() {
        StartInv(j, order);
        RunInv(j, Start(j, order), schedule);
        AllInTheEnd(w, j, st);
      }
    }

    lemma RootIsDue(j: Job)
      requires j.Valid()
      ensures j.Marked(Pos(0, 0))
    {
      var k :| k in j.keys;
      assert PathAt(j.env, k, 0) == 0;
    }

    lemma RootPublished(w: Work, j: Job, st: State)
      requires Mirror(w, j, st) && Pos(0, 0) in st.filled
      ensures HaveIds(w.tmp) && ROOT_KEY in w.tmp && w.tmp[ROOT_KEY].Id() == ROOT_KEY && w.tmp[ROOT_KEY].Root() == st.filled[Pos(0, 0)]
    {
      hide Job.Marked, Work.SlotsOK, Work.KidsOK, TreeState.Nodes;
      assert At(ROOT_KEY) in w.filled && At(ROOT_KEY) in w.marks;
      assert w.NodeOK(w.tmp[ROOT_KEY]);
    }

    lemma BesideTree(items: seq<Item>, w: Work, prog: map<nat, nat>, leaves: map<nat, TreeNode>)
      requires Placing(w, SetAll(map[], items), prog, map[], leaves)
      ensures w.s == State() && Shell() && !lastSaveRoot.temporary && CacheOK() && Kept()
      ensures HaveIds(journal) && journal.Values !! saved && journal.Values !! dbCache.Values
      ensures w.tmp.Values !! saved && w.tmp.Values !! journal.Values && w.tmp.Values !! dbCache.Values
      ensures forall k :: k in leaves ==> Copied(w.tmp, leaves[k]) && leaves[k].Id() == LeafKey(env, k)
    {
      hide MarksBy, FilledBy, SparseMerkleTree.Kept;
      ValidIsKept();
    }

    lemma ValidAgain()
      requires Shell() && State().Nodes() && !lastSaveRoot.temporary && CacheOK()
      ensures Valid()
    {
    }

    /** Takes the tree back to version `v`. If that version is in reach, the tree stands for the
        history up to it again. In any case every list is cut, and the root shows the hash of
        that version if and only if it is in reach, or its tree was empty. */
    method Rollback(v: nat) returns (error: Option<Error>)
      requires Valid()
      modifies this, saved, db
      ensures recentVersion == old(recentVersion) && fresh(Owned() - old(Owned()))
      ensures error == if recentVersion > v then Some(VersionTooOld)
                       else if v > old(version) then Some(VersionTooHigh) else None
      ensures error.Some? ==>
        && Valid() && hist == old(hist) && pending == old(pending) && version == old(version) && journal == old(journal)
        && pendingVersion == old(pendingVersion) && floor == old(floor) && db.db == old(db.db)
      ensures error.None? ==> v < |old(hist)| && hist == old(hist)[..v + 1] && pending == hist[v]
      ensures error.None? ==> version == v && journal == map[] && floor == Lower(old(floor), v) && ListsCut(old(db.db), v)
      ensures error.None? ==> CellsAfter(db.db, old(db.db), {}, v, None)
      ensures error.None? && old(InReach(db.db, floor, v)) ==> Valid()
      ensures error.None? ==>
        (root.Root() == TreeHash(env, pending) <==> old(InReach(db.db, floor, v)) || TreeHash(env, pending) == NilHash(env, 0))
    {
      hide TreeHash, NilHash;
      if recentVersion > v {
        return Some(VersionTooOld);
      }
      if v > version {
        return Some(VersionTooHigh);
      }
      ValidIsKept();
      Reset();
      TurnBack(v);
      return None;
    }

    /** Every version list is what `m` had of it up to version `v`. */
    ghost predicate ListsCut(m: Table, v: nat)
      reads this, db
    {
      forall key {:trigger VersionsAt(db.db, key)} :: KeyOK(env, key) ==> VersionsAt(db.db, key) == Truncated(VersionsAt(m, key), v)
    }

    method TurnBack(v: nat)
      requires Valid() && recentVersion <= v <= version && journal == map[]
      modifies this, saved, db
      ensures v < |old(hist)| && floor == Lower(old(floor), v) && recentVersion == old(recentVersion) && fresh(saved - old(saved))
      ensures version == v && hist == old(hist)[..v + 1] && pending == hist[v] && journal == map[] && ListsCut(old(db.db), v)
      ensures CellsAfter(db.db, old(db.db), {}, v, None)
      ensures old(InReach(db.db, floor, v)) ==> Valid()
      ensures root.Root() == TreeHash(env, pending) <==> old(InReach(db.db, floor, v)) || TreeHash(env, pending) == NilHash(env, 0)
    {
      var batch := db.NewBatch();
      ghost var s := State();
      ghost var nodes := BelowRoot();
      TurnStarts(v, batch);
      ghost var kept := RollbackNode(root, v, batch, s, nodes);
      WriteVersion(batch, v, s, kept);
      RootShows(v, s, kept);
      hide SparseMerkleTree.Valid, InReach, CanGoBack, TreeState.Nodes;
      SwitchBack(v, s, kept);
    }

    lemma RootShows(v: nat, s: TreeState, kept: set<TreeNode>)
      requires CanGoBack(s, v) && s.env == env && root in kept && BackNode(s, v, db.db, kept, root) && !root.temporary
      requires root.Id() == ROOT_KEY && VersionsAt(db.db, ROOT_KEY) == Truncated(VersionsAt(s.m, ROOT_KEY), v)
      ensures root.Root() == TreeHash(env, s.hist[v]) <==> InReach(s.m, s.floor, v) || TreeHash(env, s.hist[v]) == NilHash(env, 0)
    {
      hide InReach, TreeHash, NilHash, Truncated, ShownPack;
      TurnedHash(s, v, ROOT_KEY);
      RootBackExactly(s, v);
    }

    ghost function BelowRoot(): set<TreeNode>
      reads this
    {
      set n | n in saved && Under(n.Id(), ROOT_KEY)
    }

    lemma TurnStarts(v: nat, batch: Batch)
      requires Valid() && v <= version && journal == map[] && batch.db == db && batch.writes == []
      ensures BackPre(root, v, batch, State(), BelowRoot())
    {
      hide DbOK, PackSpec, TreeState.SavedNode, TreeState.PendingNode, CachedLeaf;
      var s, nodes := State(), BelowRoot();
      forall n | n in nodes ensures s.(saved := nodes).SavedNode(n) {
        forall c | c in saved && Under(c.Id(), n.Id()) && c.Id() != n.Id() ensures c in nodes {
          UnderTransitive(c.Id(), n.Id(), ROOT_KEY);
        }
        RestrictSaved(s, saved, nodes, n);
      }
    }

    method WriteVersion(batch: Batch, v: nat, ghost s: TreeState, ghost kept: set<TreeNode>)
      requires CanGoBack(s, v) && s.env == env && s.hist == hist && s.floor == floor
      requires ShellFor(s.m) && root.Id() == ROOT_KEY && BackPost(root, v, batch, s, kept, s.m, s.m)
      modifies db, batch
      ensures ListsCut(s.m, v) && (forall n :: n in kept ==> BackNode(s, v, db.db, kept, n))
      ensures InReach(s.m, s.floor, v) ==> Back(s, v, db.db, kept).Nodes()
      ensures CellsOK(db.db, v, recentVersion) && CacheAgrees(db.db) && CellsAfter(db.db, s.m, {}, v, None)
    {
      hide SubtreeTurned, BackNode, TreeState.SavedNode, CachedLeaf, DbOK, InReach;
      ghost var t' := batch.Staged();
      batch.Set(LatestVersionKey, Number(v), 8);
      batch.Write();
      batch.Reset();
      forall key | !Under(key, ROOT_KEY) ensures RecAt(t', key) == RecAt(s.m, key) {
        assert KeyAlone(s.m, s.m, old(db.db), t', key);
      }
      AllTurned(s, v, t', db.db, kept);
      SameLeaves(s.m, db.db);
      forall leaf | leaf in dbCache ensures CachedLeaf(env, db.db, leaf, dbCache[leaf]) {
        SameRecord(t', db.db, leaf, dbCache[leaf]);
      }
    }

    lemma SameLeaves(m: Table, m': Table)
      requires forall key :: NodeKey(key) in m' <==> NodeKey(key) in m
      ensures StoredLeaves(env, m') == StoredLeaves(env, m) + LeavesIn(env, {})
    {
      forall k: nat ensures k in StoredLeaves(env, m') <==> k in StoredLeaves(env, m) {
        InStored(m', k);
        InStored(m, k);
      }
    }

    lemma SameRecord(t: Table, t': Table, leaf: nat, n: TreeNode)
      requires CachedLeaf(env, t, leaf, n) && RecAt(t', LeafKey(env, leaf)) == RecAt(t, LeafKey(env, leaf))
      ensures CachedLeaf(env, t', leaf, n)
    {
    }

    method SwitchBack(v: nat, ghost s: TreeState, ghost kept: set<TreeNode>)
      requires CanGoBack(s, v) && s.env == env && s.hist == hist && s.floor == floor && s.journal == journal == map[]
      requires env.Valid() && CellsOK(db.db, v, recentVersion) && CacheAgrees(db.db)
      requires root == lastSaveRoot && root in kept && root.Id() == ROOT_KEY && !root.temporary && recentVersion <= floor && recentVersion <= v
      modifies this
      ensures v < |old(hist)| && floor == Lower(old(floor), v) && recentVersion == old(recentVersion) && saved == kept && root == old(root)
      ensures version == v && hist == old(hist)[..v + 1] && pending == hist[v] && journal == map[]
      ensures old(Back(s, v, db.db, kept).Nodes()) ==> Valid()
    {
      hide TreeState.Nodes, CanGoBack, CellsOK, CachedLeaf;
      BackToHistory(v, s);
      TakeBack(v, s, kept);
      assert State() == Back(s, v, db.db, kept);
    }

    lemma BackToHistory(v: nat, s: TreeState)
      requires CanGoBack(s, v)
      ensures v < |s.hist|
    {
    }

    method TakeBack(v: nat, ghost s: TreeState, ghost kept: set<TreeNode>)
      requires v < |hist|
      modifies this
      ensures version == v && hist == old(hist)[..v + 1] && pending == hist[v] && pendingVersion == s.ver && saved == kept
      ensures floor == Lower(old(floor), v) && recentVersion == old(recentVersion) && journal == old(journal)
      ensures root == old(root) && lastSaveRoot == old(lastSaveRoot) && dbCache == old(dbCache)
    {
      version := v;
      floor := Lower(floor, v);
      hist, pending, pendingVersion, saved := hist[..v + 1], hist[v], s.ver, kept;
    }

    /** Drops the pending changes, whatever state they are in. */
    method Reset()
      requires Kept()
      modifies this`journal, this`root, this`pending
      ensures Kept() && journal == map[] && pending == Newest(hist) && root == lastSaveRoot
      ensures Valid() <==> |hist| == version + 1
    {
      hide TreeState.Nodes, CellsOK, CachedLeaf;
      DropJournal();
      KeptIsValid();
    }

    method DropJournal()
      modifies this`journal, this`root, this`pending
      ensures journal == map[] && root == lastSaveRoot && pending == Newest(hist)
    {
      journal := map[];
      root := lastSaveRoot;
      pending := Newest(hist);
    }
  }

  /** The hash of an empty subtree for every level, computed from the leaf level up. */
  method ConstructNilHashes(env: Env) returns (hashes: seq<Digest>)
    ensures |hashes| == env.maxDepth + 1
    ensures forall i :: 0 <= i <= env.maxDepth ==> hashes[i] == NilHash(env, i)
  {
    var nilHash := env.nilLeaf;
    hashes := seq(env.maxDepth + 1, _ => nilHash);
    for i := 1 to env.maxDepth + 1
      invariant |hashes| == env.maxDepth + 1 && nilHash == NilHash(env, env.maxDepth - i + 1)
      invariant forall k :: env.maxDepth - i < k <= env.maxDepth ==> hashes[k] == NilHash(env, k)
    {
      nilHash := env.hash(nilHash, nilHash);
      hashes := hashes[env.maxDepth - i := nilHash];
    }
  }

  /** The proof of every key of an empty tree. */
  method NilHashes(env: Env) returns (proofs: Proof)
    ensures proofs == NilProof(env)
  {
    proofs := [];
    for i := env.maxDepth downto 0
      invariant |proofs| == env.maxDepth - i
      invariant forall k :: 0 <= k < |proofs| ==> proofs[k] == NilHash(env, env.maxDepth - k)
    {
      proofs := proofs + [NilHash(env, i + 1)];
    }
  }

  /** The direction bits of a key, leaf level first. */
  method Directions(env: Env, key: nat) returns (helpers: seq<nat>)
    requires env.Valid()
    ensures |helpers| == env.maxDepth
    ensures forall k :: 0 <= k < env.maxDepth ==> helpers[k] == PathAt(env, key, env.maxDepth - k) % 2
  {
    helpers := [];
    for i := 0 to env.maxDepth / 4
      invariant |helpers| == if i == 0 then 0 else 4 * i - 1
      invariant forall k :: 0 <= k < |helpers| ==> helpers[k] == PathAt(env, key, k + 1) % 2
    {
      var path := PathAt(env, key, 4 * i + 4);
      var nibble := path % 16;
      DirectionBits(env, key, 4 * i);
      if i > 0 {
        helpers := helpers + [path / 16 % 2];
      }
      helpers := helpers + [nibble / 8 % 2, nibble / 4 % 2, nibble / 2 % 2];
    }
    helpers := helpers + [key % 2];
    helpers := Reverse(helpers);
  }

  /** Hashes from a leaf up to the root, along the key's bits. */
  method ClimbUp(env: Env, key: nat, keyVal: Digest, proof: Proof, helpers: seq<nat>) returns (node: Digest)
    requires |proof| == |helpers| == env.maxDepth
    requires forall k :: 0 <= k < env.maxDepth ==> helpers[k] == PathAt(env, key, env.maxDepth - k) % 2
    ensures node == Climb(env, key, env.maxDepth, keyVal, proof)
  {
    node := keyVal;
    assert proof[0..] == proof;
    for i := 0 to |proof|
      invariant Climb(env, key, env.maxDepth, keyVal, proof) == Climb(env, key, env.maxDepth - i, node, proof[i..])
    {
      assert proof[i..][1..] == proof[i + 1..];
      if helpers[i] == 0 {
        node := env.hash(node, proof[i]);
      } else {
        node := env.hash(proof[i], node);
      }
    }
  }

  /** Searches a version list from its newest entry on. */
  method ReadAt(vs: seq<VersionInfo>, w: nat) returns (r: Option<VersionInfo>)
    ensures r == Lookup(vs, w)
  {
    var i := |vs|;
    assert vs[..i] == vs;
    while i > 0
      invariant 0 <= i <= |vs| && Lookup(vs, w) == Lookup(vs[..i], w)
    {
      i := i - 1;
      assert vs[..i + 1][..i] == vs[..i];
      if vs[i].ver <= w {
        return Some(vs[i]);
      }
    }
    return None;
  }
}
