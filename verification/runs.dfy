/** Whole runs: any sequence of operations on a tree, reopening it in between, against a plain
    list of snapshots. */
module Runs {
  import opened MerkleSpec
  import opened VersionList
  import opened Database
  import opened History
  import opened TreeNodes
  import opened NodeState
  import opened PendingUpdate
  import opened MultiSetPlacing
  import opened SparseMerkleTrees
  import opened Proofs
  import opened MultiSetProtocol
  import opened StaleSibling

  /** The operations of a run; without a version given, a change or a commit is for the next. A tree
      is opened with an initial version, which matters only if its store has none. */
  datatype Op =
    | Set(key: nat, val: Digest, ver: Option<nat>)
    | MultiSet(items: seq<Item>, ver: Option<nat>, choice: Choice)
    | Commit(oldest: Option<nat>, ver: Option<nat>, release: nat)
    | Reset
    | Rollback(v: nat)
    | Reopen(initialVersion: nat)
    | Read(key: nat, at: Option<nat>)
    | Prove(key: nat)
    | Check(key: nat, proof: Proof)

  /** What a tree stands for: the committed snapshots, the highest and the last oldest version,
      the version list of the root, the leaves with a record and the version the store has, the
      pending snapshot, the version it is meant for and the nodes that are pending. */
  datatype Model = Model(hist: Hist, floor: nat, recent: nat, roots: seq<VersionInfo>, stored: set<nat>, latest: Option<nat>,
                         pending: LeafMap, pendingVersion: nat, dirty: set<Key>)
  {
    function Version(): nat {
      |hist| - 1
    }

    function Next(ver: Option<nat>): nat {
      if ver.None? then Version() + 1 else ver.value
    }

    /** The newest version there are changes for. */
    function LastWritten(): nat {
      if dirty == {} then Version() else pendingVersion
    }

    ghost predicate OK() {
      && recent <= floor <= Version() && (latest.Some? ==> latest.value == Version())
      && (if dirty == {} then pending == Newest(hist) && pendingVersion == 0 else pendingVersion > Version())
    }

    /** All pending changes are for one version. */
    predicate Joins(ver: nat) {
      dirty == {} || ver == pendingVersion
    }

    /** The version of a commit is not refused. */
    predicate Takes(oldest: Option<nat>, ver: nat) {
      if oldest.Some? then ver > oldest.value else ver > Version()
    }

    function Clean(now: LeafMap): Model {
      this.(pending := now, pendingVersion := 0, dirty := {})
    }

    /** The pending changes become part of the history, which goes up to version `last`. */
    function Committed(env: Env, oldest: Option<nat>, last: nat): Model
      requires dirty != {} ==> |hist| <= pendingVersion <= last
      requires dirty == {} ==> |hist| <= last + 1
    {
      this.(hist := if dirty == {} then Extend(hist, |hist|, pending, last) else Extend(hist, pendingVersion, pending, last),
            roots := if dirty == {} then roots else PruneTo(roots + [VersionInfo(pendingVersion, TreeHash(env, pending))], oldest),
            stored := stored + LeavesIn(env, dirty), latest := Some(last),
            floor := Raise(floor, oldest), recent := if oldest.Some? then oldest.value else recent).Clean(pending)
    }
  }

  /** What a tree opened on an empty store stands for. */
  function Unwritten(initialVersion: nat): Model {
    Model(seq(initialVersion + 1, _ => map[]), 0, 0, [], {}, None, map[], 0, {})
  }

  /** What a caller has to respect. */
  ghost predicate Legal(env: Env, a: Model, op: Op) {
    match op
    case Set(key, _, ver) => a.Next(ver) > a.Version() ==> a.Joins(a.Next(ver))
    case MultiSet(items, ver, _) =>
      && Distinct(items) && a.Next(ver) > a.Version() && a.Joins(a.Next(ver))
      && (if AllInRange(env, items) then items != [] ==> JobFor(env, a.pending, a.dirty, items).NoStaleSibling()
          else Undisturbed(env, a.pending, a.dirty, items, Submitted(env, items)))
    case Commit(oldest, ver, _) => a.Takes(oldest, a.Next(ver)) ==> a.Next(ver) >= a.LastWritten()
    case Rollback(v) => a.recent <= v <= a.Version() ==> Readable(a.floor, a.roots, v)
    case _ => true
  }

  ghost function Step(env: Env, a: Model, op: Op): Model
    requires a.OK()
  {
    match op
    case Set(key, val, ver) =>
      if key < Pow2(env.maxDepth) && a.Next(ver) > a.Version()
      then a.(pending := a.pending[key := val], pendingVersion := a.Next(ver), dirty := a.dirty + PathKeys(env, key))
      else a
    case MultiSet(items, ver, _) =>
      if items != [] && AllInRange(env, items)
      then a.(pending := SetAll(a.pending, items), pendingVersion := a.Next(ver),
              dirty := a.dirty + WayKeys(env, SetAll(map[], items).Keys))
      else a
    case Commit(oldest, ver, _) =>
      if a.Takes(oldest, a.Next(ver)) && a.Next(ver) >= a.LastWritten() then a.Committed(env, oldest, a.Next(ver)) else a
    case Reset => a.Clean(Newest(a.hist))
    case Rollback(v) =>
      if a.recent <= v <= a.Version()
      then a.(hist := a.hist[..v + 1], floor := Lower(a.floor, v), roots := Truncated(a.roots, v), latest := Some(v)).Clean(a.hist[v])
      else a
    case Reopen(initialVersion) => if a.latest.Some? then a.Clean(Newest(a.hist)) else Unwritten(initialVersion)
    case _ => a
  }

  lemma StepOK(env: Env, a: Model, op: Op)
    requires a.OK() && Legal(env, a, op)
    ensures Step(env, a, op).OK()
  {
    match op
    case Set(key, _, _) => PathIsSome(env, key);
    case MultiSet(items, _, _) => WaysAreSome(env, items);
    case _ =>
  }

  lemma PathIsSome(env: Env, key: nat)
    ensures PathKeys(env, key) != {}
  {
    assert PathKey(env, key, 4 * 0) in PathKeys(env, key);
  }

  lemma WaysAreSome(env: Env, items: seq<Item>)
    ensures items != [] ==> WayKeys(env, SetAll(map[], items).Keys) != {}
  {
    if items != [] {
      hide PathKeys;
      SetAllMerges(map[], items);
      PathIsSome(env, items[0].key);
      assert items[0].key in SetAll(map[], items);
      var id :| id in PathKeys(env, items[0].key);
      assert id in WayKeys(env, SetAll(map[], items).Keys);
    }
  }

  ghost predicate LegalRun(env: Env, a: Model, ops: seq<Op>)
    requires a.OK()
    decreases |ops|
  {
    ops == [] || (Legal(env, a, ops[0]) && (StepOK(env, a, ops[0]); LegalRun(env, Step(env, a, ops[0]), ops[1..])))
  }

  ghost function Run(env: Env, a: Model, ops: seq<Op>): (b: Model)
    requires a.OK() && LegalRun(env, a, ops)
    ensures b.OK()
    decreases |ops|
  {
    if ops == [] then a else (StepOK(env, a, ops[0]); Run(env, Step(env, a, ops[0]), ops[1..]))
  }

  // ---- the tree does what the model says ----

  /** The version the store has. */
  function VersionCell(m: Table): Option<nat> {
    match Cell(m, LatestVersionKey)
    case Some(Number(n)) => Some(n)
    case _ => None
  }

  ghost function Abs(tree: SparseMerkleTree): Model
    requires |tree.hist| >= 1
    reads tree, tree.db
  {
    Model(tree.hist, tree.floor, tree.recentVersion, VersionsAt(tree.db.db, ROOT_KEY), StoredLeaves(tree.env, tree.db.db),
          VersionCell(tree.db.db), tree.pending, if tree.journal == map[] then 0 else tree.pendingVersion, tree.journal.Keys)
  }

  lemma ValidIsOK(tree: SparseMerkleTree)
    requires tree.Valid()
    ensures Abs(tree).OK() && |tree.hist| == tree.version + 1 && tree.Valid()
  {
  }

  /** `tree` has taken the place of `was`: the same object or one opened on the same store. */
  ghost predicate Follows(tree: SparseMerkleTree, was: SparseMerkleTree) {
    tree.env == was.env && tree.db == was.db
  }

  /** A tree opened on an empty store: no leaf has a value at any version. */
  method Open(env: Env, db: MemoryDB, initialVersion: nat, batchSizeLimit: nat, valueLength: DbValue -> nat)
    returns (tree: SparseMerkleTree)
    requires env.Valid() && db.db == map[]
    ensures tree.Valid() && fresh(tree) && tree.env == env && tree.db == db && fresh(tree.Owned())
    ensures Abs(tree) == Unwritten(initialVersion)
  {
    ghost var hist: Hist := seq(initialVersion + 1, _ => map[]);
    EmptyDb(env, db.db, hist);
    tree := new SparseMerkleTree(env, db, initialVersion, batchSizeLimit, valueLength, hist, 0, 0);
  }

  method Perform(tree0: SparseMerkleTree, op: Op) returns (tree: SparseMerkleTree)
    requires tree0.Valid() && Legal(tree0.env, Abs(tree0), op)
    modifies tree0, tree0.saved, tree0.journal.Values, tree0.db
    ensures tree.Valid() && old(Abs(tree0)).OK() && Abs(tree) == Step(tree0.env, old(Abs(tree0)), op)
    ensures Follows(tree, tree0) && (tree == tree0 || fresh(tree)) && fresh(tree.Owned() - old(tree0.Owned()))
  {
    ValidIsOK(tree0);
    tree := tree0;
    if op.Reopen? {
      tree := OpenAgain(tree0, op.initialVersion);
    } else {
      PerformHere(tree, op);
    }
  }

  /** A tree opened on the store of another one: everything comes from the store, and the initial
      version given counts only if nothing has been committed yet. */
  method OpenAgain(tree0: SparseMerkleTree, initialVersion: nat) returns (tree: SparseMerkleTree)
    requires tree0.Valid() && Abs(tree0).OK()
    ensures tree.Valid() && fresh(tree) && fresh(tree.Owned()) && Follows(tree, tree0)
    ensures Abs(tree) == if Abs(tree0).latest.Some? then Abs(tree0).Clean(Newest(tree0.hist)) else Unwritten(initialVersion)
  {
    StoreFacts(tree0, initialVersion);
    ghost var written := Abs(tree0).latest.Some?;
    ghost var hist: Hist := if written then tree0.hist else seq(initialVersion + 1, _ => map[]);
    hide SparseMerkleTree.Valid, DbOK;
    tree := new SparseMerkleTree(tree0.env, tree0.db, initialVersion, tree0.batchSizeLimit, tree0.valueLength, hist,
                                 if written then tree0.floor else 0, if written then tree0.recentVersion else 0);
  }

  /** What opening a store again relies on. */
  lemma StoreFacts(tree: SparseMerkleTree, initialVersion: nat)
    requires tree.Valid()
    ensures var m := tree.db.db;
      if LatestVersionKey in m then
        && VersionCell(m).Some? && DbOK(tree.env, m, tree.hist, tree.floor) && CellsOK(m, |tree.hist| - 1, tree.recentVersion)
        && tree.env.Valid() && tree.recentVersion <= tree.floor < |tree.hist|
      else
        && VersionCell(m).None? && VersionsAt(m, ROOT_KEY) == [] && StoredLeaves(tree.env, m) == {} && tree.env.Valid()
        && DbOK(tree.env, m, seq(initialVersion + 1, _ => map[]), 0) && CellsOK(m, initialVersion, 0)
  {
    var m := tree.db.db;
    if LatestVersionKey !in m {
      EmptyDb(tree.env, m, seq(initialVersion + 1, _ => map[]));
    }
  }

  method PerformHere(tree: SparseMerkleTree, op: Op)
    requires tree.Valid() && Legal(tree.env, Abs(tree), op) && !op.Reopen? && Abs(tree).OK() && |tree.hist| == tree.version + 1
    modifies tree, tree.saved, tree.journal.Values, tree.db
    ensures tree.Valid() && Abs(tree) == Step(tree.env, old(Abs(tree)), op) && fresh(tree.Owned() - old(tree.Owned()))
  {
    hide SparseMerkleTree.Valid, Pow2, SetAll, Distinct, AllInRange, PathKeys, WayKeys, Extend, JobFor,
      Undisturbed, Submitted, TreeHash, PruneTo, Truncated;
    match op {
      case Set(key, val, ver) =>
        var error := tree.SetWithVersion(key, val, if ver.None? then tree.version + 1 else ver.value);
      case MultiSet(items, ver, choice) =>
        SetMany(tree, items, if ver.None? then tree.version + 1 else ver.value, choice);
      case Commit(_, _, _) => Settle(tree, op);
      case Reset => Settle(tree, op);
      case Rollback(_) => Settle(tree, op);
      case Read(_, _) => Look(tree, op);
      case Prove(_) => Look(tree, op);
      case Check(_, _) => Look(tree, op);
    }
  }

  /** The operations after which nothing is pending. */
  method Settle(tree: SparseMerkleTree, op: Op)
    requires tree.Valid() && Legal(tree.env, Abs(tree), op) && Abs(tree).OK() && |tree.hist| == tree.version + 1
    requires op.Commit? || op.Reset? || op.Rollback?
    modifies tree, tree.saved, tree.journal.Values, tree.db
    ensures tree.Valid() && Abs(tree) == Step(tree.env, old(Abs(tree)), op) && fresh(tree.Owned() - old(tree.Owned()))
  {
    hide SparseMerkleTree.Valid, SparseMerkleTree.Kept, Extend, TreeHash, PruneTo, Truncated, NilHash, StoredLeaves, LeavesIn,
      SparseMerkleTree.ListsCut;
    match op {
      case Commit(_, _, _) => SettleCommit(tree, op);
      case Reset =>
        tree.ValidIsKept();
        tree.Reset();
      case Rollback(v) =>
        var error := tree.Rollback(v);
        assert error.None? ==> VersionsAt(tree.db.db, ROOT_KEY) == Truncated(old(VersionsAt(tree.db.db, ROOT_KEY)), v) by { RootCut(tree, old(tree.db.db), v); }
        assert StoredLeaves(tree.env, tree.db.db) == old(StoredLeaves(tree.env, tree.db.db)) by { NoLeaves(tree.env); }
      case _ =>
    }
  }

  lemma RootCut(tree: SparseMerkleTree, m: Table, v: nat)
    ensures tree.ListsCut(m, v) ==> VersionsAt(tree.db.db, ROOT_KEY) == Truncated(VersionsAt(m, ROOT_KEY), v)
  {
  }

  lemma NoLeaves(env: Env)
    ensures LeavesIn(env, {}) == {}
  {
  }

  method SettleCommit(tree: SparseMerkleTree, op: Op)
    requires tree.Valid() && Legal(tree.env, Abs(tree), op) && Abs(tree).OK() && |tree.hist| == tree.version + 1 && op.Commit?
    modifies tree, tree.saved, tree.journal.Values, tree.db
    ensures tree.Valid() && Abs(tree) == Step(tree.env, old(Abs(tree)), op) && fresh(tree.Owned() - old(tree.Owned()))
  {
    hide SparseMerkleTree.Valid, SparseMerkleTree.Kept, SparseMerkleTree.Releases, ListsWritten,
      Extend, TreeHash, PruneTo, StoredLeaves, LeavesIn;
    var r := tree.CommitWithNewVersion(op.oldest, op.ver, op.release);
  }

  /** Reads and proofs leave everything as it was, though nodes and leaves may come into memory. */
  method Look(tree: SparseMerkleTree, op: Op)
    requires tree.Valid() && (op.Read? || op.Prove? || op.Check?)
    modifies tree`dbCache, tree`saved, tree.saved, tree.journal.Values
    ensures tree.Valid() && fresh(tree.Owned() - old(tree.Owned()))
  {
    hide SparseMerkleTree.Valid, SparseMerkleTree.Kept, Pow2, Accepts, ProofFor, SparseMerkleTree.Answers,
      SparseMerkleTree.RightAt, TreeHash, NilHash;
    tree.ValidIsKept();
    match op {
      case Read(key, at) =>
        var r := tree.Get(key, at);
      case Prove(key) =>
        var r := tree.GetProof(key);
      case Check(key, proof) =>
        var ok := tree.VerifyProof(key, proof);
      case _ =>
    }
  }

  /** A parallel set without a stale sibling in the way; a key out of range does no harm. */
  method SetMany(tree: SparseMerkleTree, items: seq<Item>, ver: nat, choice: Choice)
    requires tree.Valid() && Distinct(items) && ver > tree.version && (tree.journal != map[] ==> ver == tree.pendingVersion)
    requires if AllInRange(tree.env, items) then items != [] ==> tree.JobOf(items).NoStaleSibling()
             else Undisturbed(tree.env, tree.pending, tree.journal.Keys, items, Submitted(tree.env, items))
    modifies tree, tree.saved, tree.journal.Values
    ensures tree.Valid() && fresh(tree.Owned() - old(tree.Owned()))
    ensures tree.hist == old(tree.hist) && tree.floor == old(tree.floor) && tree.recentVersion == old(tree.recentVersion)
    ensures if items != [] && AllInRange(tree.env, items)
            then && tree.pending == SetAll(old(tree.pending), items) && tree.pendingVersion == ver && tree.journal != map[]
                 && tree.journal.Keys == old(tree.journal).Keys + WayKeys(tree.env, SetAll(map[], items).Keys)
            else tree.pending == old(tree.pending) && tree.pendingVersion == old(tree.pendingVersion) && tree.journal == old(tree.journal)
  {
    hide SparseMerkleTree.Valid, SparseMerkleTree.Kept, AllInRange, SetAll, Distinct, WayKeys, Submitted, Job.NoStaleSibling,
      EndsWith, Completes, TreeHash;
    var error, placed, order, schedule := tree.MultiSetWithVersion(items, ver, choice);
  }

  /** Any run of operations leaves the tree where the model says. */
  method Execute(tree0: SparseMerkleTree, ops: seq<Op>) returns (tree: SparseMerkleTree)
    requires tree0.Valid() && Abs(tree0).OK() && LegalRun(tree0.env, Abs(tree0), ops)
    modifies tree0, tree0.saved, tree0.journal.Values, tree0.db
    ensures tree.Valid() && Follows(tree, tree0) && (tree == tree0 || fresh(tree)) && fresh(tree.Owned() - old(tree0.Owned()))
    ensures Abs(tree) == Run(tree0.env, old(Abs(tree0)), ops)
    decreases |ops|
  {
    hide SparseMerkleTree.Valid, Step, Legal;
    tree := tree0;
    if ops != [] {
      StepOK(tree0.env, Abs(tree0), ops[0]);
      tree := Perform(tree0, ops[0]);
      tree := Execute(tree, ops[1..]);
    }
  }

  /** After any run, a read at a version that is on offer and in reach gives the value of that
      snapshot. A key that has had a value in any of them is found, if only as the nil leaf; a key
      that has never been set is not. */
  method ReadAfter(tree0: SparseMerkleTree, ops: seq<Op>, key: nat, w: nat) returns (r: Result<Digest>)
    requires tree0.Valid() && Abs(tree0).OK() && LegalRun(tree0.env, Abs(tree0), ops)
    requires key < Pow2(tree0.env.maxDepth)
    modifies tree0, tree0.saved, tree0.journal.Values, tree0.db
    ensures var b := Run(tree0.env, old(Abs(tree0)), ops);
      b.recent <= w <= b.Version() && TreeHash(tree0.env, b.pending) != NilHash(tree0.env, 0) ==>
        && (r == Err(NodeNotFound) <==> key !in b.stored)
        && (r != Err(NodeNotFound) && Readable(b.floor, b.roots, w) ==> r == Ok(LeafHash(tree0.env, b.hist[w], key)))
        && (r == Err(NodeNotFound) && Readable(b.floor, b.roots, w) ==> LeafHash(tree0.env, b.hist[w], key) == tree0.env.nilLeaf)
        && (Backed(tree0.env, old(Abs(tree0))) && (exists i :: 0 <= i < |b.hist| && key in b.hist[i]) ==> r != Err(NodeNotFound))
        && (Untold(tree0.env, old(Abs(tree0)), key) && NeverSets(ops, key) ==> r == Err(NodeNotFound))
  {
    hide SparseMerkleTree.Valid, SparseMerkleTree.Kept, LegalRun, Run, Pow2, TreeHash, LeafHash, NilHash, Sets;
    ghost var a := Abs(tree0);
    assert tree0.env.Valid() by { tree0.ValidEnv(); }
    if Backed(tree0.env, a) { RunBacked(tree0.env, a, ops); }
    if Untold(tree0.env, a, key) && NeverSets(ops, key) { RunUntold(tree0.env, a, ops, key); }
    var tree := Execute(tree0, ops);
    ValidIsOK(tree);
    tree.ValidIsKept();
    r := tree.Get(key, Some(w));
  }

  /** After any run, setting a key and committing, a read of the key finds the value. */
  method WriteThenRead(tree0: SparseMerkleTree, ops: seq<Op>, key: nat, val: Digest) returns (r: Result<Digest>)
    requires tree0.Valid() && Abs(tree0).OK() && LegalRun(tree0.env, Abs(tree0), ops) && key < Pow2(tree0.env.maxDepth)
    requires var b := Run(tree0.env, Abs(tree0), ops); b.dirty == {} || b.pendingVersion == |b.hist|
    modifies tree0, tree0.saved, tree0.journal.Values, tree0.db
    ensures var b := Run(tree0.env, old(Abs(tree0)), ops);
      TreeHash(tree0.env, b.pending[key := val]) != NilHash(tree0.env, 0) ==> r == Ok(val)
  {
    hide SparseMerkleTree.Valid, LegalRun, Run, Pow2, TreeHash, NilHash;
    var tree := Execute(tree0, ops);
    ValidIsOK(tree);
    r := WriteAndRead(tree, key, val);
  }

  method WriteAndRead(tree: SparseMerkleTree, key: nat, val: Digest) returns (r: Result<Digest>)
    requires tree.Valid() && key < Pow2(tree.env.maxDepth) && (tree.journal != map[] ==> tree.pendingVersion == tree.version + 1)
    modifies tree, tree.saved, tree.journal.Values, tree.db
    ensures TreeHash(tree.env, old(tree.pending)[key := val]) != NilHash(tree.env, 0) ==> r == Ok(val)
  {
    hide SparseMerkleTree.Valid, SparseMerkleTree.Kept, SparseMerkleTree.RightAt, Pow2, TreeHash, NilHash, StoredLeaves, LeafHash;
    assert tree.env.Valid() by { tree.ValidEnv(); }
    SetAndCommit(tree, key, val);
    tree.ValidIsKept();
    r := tree.Get(key, None);
    assert LeafHash(tree.env, old(tree.pending)[key := val], key) == val by { JustSet(tree.env, old(tree.pending), key, val); }
  }

  lemma JustSet(env: Env, m: LeafMap, key: nat, val: Digest)
    ensures LeafHash(env, m[key := val], key) == val
  {
  }

  method SetAndCommit(tree: SparseMerkleTree, key: nat, val: Digest)
    requires tree.Valid() && key < Pow2(tree.env.maxDepth) && (tree.journal != map[] ==> tree.pendingVersion == tree.version + 1)
    requires tree.env.Valid()
    modifies tree, tree.saved, tree.journal.Values, tree.db
    ensures tree.Valid() && |tree.hist| == tree.version + 1 && tree.recentVersion <= tree.version
    ensures tree.pending == old(tree.pending)[key := val] == Newest(tree.hist) && key in StoredLeaves(tree.env, tree.db.db)
  {
    hide SparseMerkleTree.Valid, SparseMerkleTree.Kept, SparseMerkleTree.Releases, Pow2, TreeHash, PruneTo, PathKeys, StoredLeaves, Extend;
    var error := tree.Set(key, val);
    LeafOnPath(tree.env, key);
    LeafIsIn(tree.env, key, tree.journal.Keys);
    var c := tree.Commit(None, 0);
    ValidIsOK(tree);
  }

  lemma LeafIsIn(env: Env, key: nat, dirty: set<Key>)
    requires LeafKey(env, key) in dirty
    ensures key in LeavesIn(env, dirty)
  {
  }

  /** The value pending for the key is the one a check takes for the committed one. */
  ghost predicate Settled(env: Env, a: Model, key: nat) {
    ClaimedHash(env, key, a.pending, Newest(a.hist)) == LeafHash(env, a.pending, key)
  }

  /** What the tree proves of a key passes its own check; with an injective hash, only then. */
  method ProveAndVerify(tree: SparseMerkleTree, key: nat) returns (ok: bool)
    requires tree.Valid() && key < Pow2(tree.env.maxDepth)
    modifies tree, tree.saved, tree.journal.Values
    ensures Settled(tree.env, old(Abs(tree)), key) ==> ok
    ensures Injective(tree.env) ==> (ok <==> Settled(tree.env, old(Abs(tree)), key))
  {
    hide SparseMerkleTree.Valid, SparseMerkleTree.Kept, Pow2, Accepts, ProofFor, ClaimedHash, Injective;
    var proof := tree.GetProof(key);
    if Settled(tree.env, Abs(tree), key) {
      ProofComplete(tree.env, key, tree.pending, Newest(tree.hist));
    }
    if Injective(tree.env) {
      ProofCompleteExactly(tree.env, key, tree.pending, Newest(tree.hist));
    }
    tree.ValidIsKept();
    ok := tree.VerifyProof(key, proof.value);
  }

  /** After any run, with or without changes pending, the tree's proof of a key passes its check
      if the pending value is the committed one; with an injective hash, only then. */
  method ProveAfter(tree0: SparseMerkleTree, ops: seq<Op>, key: nat) returns (ok: bool)
    requires tree0.Valid() && Abs(tree0).OK() && LegalRun(tree0.env, Abs(tree0), ops)
    requires key < Pow2(tree0.env.maxDepth)
    modifies tree0, tree0.saved, tree0.journal.Values, tree0.db
    ensures Settled(tree0.env, Run(tree0.env, old(Abs(tree0)), ops), key) ==> ok
    ensures Injective(tree0.env) ==> (ok <==> Settled(tree0.env, Run(tree0.env, old(Abs(tree0)), ops), key))
  {
    hide SparseMerkleTree.Valid, LegalRun, Run, Pow2, Settled, Injective;
    var tree := Execute(tree0, ops);
    ValidIsOK(tree);
    ok := ProveAndVerify(tree, key);
  }

  // ---- what each operation does to the history, at the end of any run ----

  lemma {:induction false} RunThen(env: Env, a: Model, ops: seq<Op>, op: Op)
    requires a.OK() && LegalRun(env, a, ops) && Legal(env, Run(env, a, ops), op)
    ensures LegalRun(env, a, ops + [op]) && Run(env, a, ops + [op]) == Step(env, Run(env, a, ops), op)
    decreases |ops|
  {
    hide Step, Legal, Model.OK;
    if ops == [] {
      StepOK(env, a, op);
      assert (ops + [op])[1..] == [];
    } else {
      StepOK(env, a, ops[0]);
      RunThen(env, Step(env, a, ops[0]), ops[1..], op);
      assert (ops + [op])[1..] == ops[1..] + [op];
    }
  }

  /** A commit that is accepted makes the pending snapshot the newest one: nothing before it
      changes, versions skipped repeat the snapshot before, and nothing is pending afterwards. A
      commit that is refused changes nothing. */
  lemma CommitLaw(env: Env, a: Model, ops: seq<Op>, oldest: Option<nat>, ver: Option<nat>, release: nat)
    requires a.OK() && LegalRun(env, a, ops) && Legal(env, Run(env, a, ops), Commit(oldest, ver, release))
    ensures LegalRun(env, a, ops + [Commit(oldest, ver, release)])
    ensures var b, c := Run(env, a, ops), Run(env, a, ops + [Commit(oldest, ver, release)]);
      var newVer := if ver.None? then |b.hist| else ver.value;
      if (if oldest.Some? then newVer <= oldest.value else newVer < |b.hist|) then c == b
      else
        && |c.hist| == newVer + 1 >= |b.hist| && c.hist[..|b.hist|] == b.hist && Newest(c.hist) == b.pending
        && (forall w :: |b.hist| <= w <= newVer ==>
              c.hist[w] == if b.dirty != {} && w >= b.pendingVersion then b.pending else Newest(b.hist))
        && c.pending == b.pending && c.dirty == {} && c.latest == Some(newVer) && c.stored == b.stored + LeavesIn(env, b.dirty)
        && c.recent == (if oldest.Some? then oldest.value else b.recent)
        && c.floor == (if oldest.Some? && oldest.value > b.floor then oldest.value else b.floor)
  {
    hide LegalRun, Run, Step, Legal, Model.OK;
    RunThen(env, a, ops, Commit(oldest, ver, release));
    CommitStep(env, Run(env, a, ops), oldest, ver, release);
  }

  lemma CommitStep(env: Env, b: Model, oldest: Option<nat>, ver: Option<nat>, release: nat)
    requires b.OK() && Legal(env, b, Commit(oldest, ver, release))
    ensures var c := Step(env, b, Commit(oldest, ver, release));
      var newVer := if ver.None? then |b.hist| else ver.value;
      if (if oldest.Some? then newVer <= oldest.value else newVer < |b.hist|) then c == b
      else
        && |c.hist| == newVer + 1 >= |b.hist| && c.hist[..|b.hist|] == b.hist && Newest(c.hist) == b.pending
        && (forall w :: |b.hist| <= w <= newVer ==>
              c.hist[w] == if b.dirty != {} && w >= b.pendingVersion then b.pending else Newest(b.hist))
        && c.pending == b.pending && c.dirty == {} && c.latest == Some(newVer) && c.stored == b.stored + LeavesIn(env, b.dirty)
        && c.recent == (if oldest.Some? then oldest.value else b.recent)
        && c.floor == (if oldest.Some? && oldest.value > b.floor then oldest.value else b.floor)
  {
    hide Extend, PruneTo, TreeHash, LeavesIn;
    var newVer := if ver.None? then |b.hist| else ver.value;
    if b.Takes(oldest, newVer) {
      Extended(b.hist, if b.dirty == {} then |b.hist| else b.pendingVersion, b.pending, newVer);
    }
  }

  /** A history that has been extended. */
  lemma Extended(hist: Hist, ver: nat, now: LeafMap, last: nat)
    requires |hist| <= ver <= last + 1
    ensures var h := Extend(hist, ver, now, last);
      && |h| == last + 1 && h[..|hist|] == hist && Newest(h) == (if ver <= last then now else Newest(hist))
      && forall w :: |hist| <= w <= last ==> h[w] == if w >= ver then now else Newest(hist)
  {
  }

  /** A key set in range for a version that is not taken yet changes this leaf of the pending
      snapshot; otherwise nothing changes. */
  lemma SetLaw(env: Env, a: Model, ops: seq<Op>, key: nat, val: Digest, ver: Option<nat>)
    requires a.OK() && LegalRun(env, a, ops) && Legal(env, Run(env, a, ops), Set(key, val, ver)) && env.Valid()
    ensures LegalRun(env, a, ops + [Set(key, val, ver)])
    ensures var b, c := Run(env, a, ops), Run(env, a, ops + [Set(key, val, ver)]);
      var newVer := if ver.None? then |b.hist| else ver.value;
      if key >= Pow2(env.maxDepth) || newVer < |b.hist| then c == b
      else
        && c.hist == b.hist && c.pending == b.pending[key := val] && c.pendingVersion == newVer
        && b.dirty <= c.dirty && LeafKey(env, key) in c.dirty
        && c.stored == b.stored && c.latest == b.latest && c.floor == b.floor && c.recent == b.recent
  {
    RunThen(env, a, ops, Set(key, val, ver));
    LeafOnPath(env, key);
    hide LegalRun, Run, PathKeys, Pow2;
  }

  lemma LeafOnPath(env: Env, key: nat)
    requires env.Valid()
    ensures LeafKey(env, key) in PathKeys(env, key)
    ensures forall k: nat :: LeafKey(env, key) in PathKeys(env, k) ==> k == key
  {
    forall k: nat ensures LeafKey(env, key) in PathKeys(env, k) <==> k == key {
      PathKeysAre(env, k, LeafKey(env, key));
      assert PathAt(env, k, env.maxDepth) == k;
    }
  }

  /** A reset, and opening the tree again once anything has been committed, keep the history and
      drop what is pending. */
  lemma DropLaw(env: Env, a: Model, ops: seq<Op>, op: Op)
    requires a.OK() && LegalRun(env, a, ops) && (op.Reset? || (op.Reopen? && Run(env, a, ops).latest.Some?))
    ensures LegalRun(env, a, ops + [op])
    ensures var b, c := Run(env, a, ops), Run(env, a, ops + [op]);
      && c.hist == b.hist && c.pending == Newest(b.hist) && c.dirty == {}
      && c.stored == b.stored && c.latest == b.latest && c.floor == b.floor && c.recent == b.recent && c.roots == b.roots
  {
    RunThen(env, a, ops, op);
    hide LegalRun, Run;
  }

  /** A rollback to a version on offer cuts the history after it and drops what is pending; any other
      changes nothing. */
  lemma RollbackLaw(env: Env, a: Model, ops: seq<Op>, v: nat)
    requires a.OK() && LegalRun(env, a, ops) && Legal(env, Run(env, a, ops), Rollback(v))
    ensures LegalRun(env, a, ops + [Rollback(v)])
    ensures var b, c := Run(env, a, ops), Run(env, a, ops + [Rollback(v)]);
      if v < b.recent || v >= |b.hist| then c == b
      else
        && c.hist == b.hist[..v + 1] && c.pending == b.hist[v] && c.dirty == {}
        && c.stored == b.stored && c.latest == Some(v) && c.recent == b.recent && c.floor == (if v < b.floor then v else b.floor)
  {
    RunThen(env, a, ops, Rollback(v));
    hide LegalRun, Run, Truncated;
  }

  /** Reads, proofs and checks change nothing. */
  lemma LookLaw(env: Env, a: Model, ops: seq<Op>, op: Op)
    requires a.OK() && LegalRun(env, a, ops) && (op.Read? || op.Prove? || op.Check?)
    ensures LegalRun(env, a, ops + [op]) && Run(env, a, ops + [op]) == Run(env, a, ops)
  {
    RunThen(env, a, ops, op);
  }

  /** After setting a key and committing, the newest snapshot has its value, and that of every
      other key is what was pending before. */
  lemma SetThenCommit(env: Env, a: Model, ops: seq<Op>, key: nat, val: Digest, release: nat)
    requires a.OK() && LegalRun(env, a, ops) && env.Valid() && key < Pow2(env.maxDepth)
    requires var b := Run(env, a, ops); b.dirty == {} || b.pendingVersion == |b.hist|
    ensures LegalRun(env, a, ops + [Set(key, val, None)] + [Commit(None, None, release)])
    ensures var b, c := Run(env, a, ops), Run(env, a, ops + [Set(key, val, None)] + [Commit(None, None, release)]);
      && |c.hist| == |b.hist| + 1 && c.hist[..|b.hist|] == b.hist && c.dirty == {} && key in c.stored
      && forall k :: LeafHash(env, Newest(c.hist), k) == if k == key then val else LeafHash(env, b.pending, k)
  {
    hide LegalRun, Run, PathKeys, Pow2, Step;
    SetLaw(env, a, ops, key, val, None);
    CommitLaw(env, a, ops + [Set(key, val, None)], None, None, release);
  }

  // ---- which leaves the store has ----

  /** Every key that has had a value has a record, or will have one with the next commit. */
  ghost predicate Backed(env: Env, a: Model) {
    && (forall w, k :: 0 <= w < |a.hist| && k in a.hist[w] ==> k in a.stored)
    && forall k :: k in a.pending ==> k in a.stored || LeafKey(env, k) in a.dirty
  }

  lemma StepBacked(env: Env, a: Model, op: Op)
    requires a.OK() && Legal(env, a, op) && Backed(env, a) && env.Valid()
    ensures Backed(env, Step(env, a, op)) && (op.Reopen? || a.stored <= Step(env, a, op).stored)
  {
    hide PathKeys, PruneTo, TreeHash, JobFor, Undisturbed, Submitted;
    match op
    case Set(key, _, _) => LeafOnPath(env, key);
    case MultiSet(items, _, _) =>
      SetAllMerges(a.pending, items);
      forall k | k in SetAll(map[], items) ensures LeafKey(env, k) in WayKeys(env, SetAll(map[], items).Keys) {
        LeafOnPath(env, k);
      }
    case _ =>
  }

  lemma {:induction false} RunBacked(env: Env, a: Model, ops: seq<Op>)
    requires a.OK() && LegalRun(env, a, ops) && Backed(env, a) && env.Valid()
    ensures Backed(env, Run(env, a, ops))
    decreases |ops|
  {
    hide Step, Legal, Model.OK, Backed;
    if ops != [] {
      StepOK(env, a, ops[0]);
      StepBacked(env, a, ops[0]);
      RunBacked(env, Step(env, a, ops[0]), ops[1..]);
    }
  }

  predicate Sets(op: Op, key: nat) {
    match op
    case Set(k, _, _) => k == key
    case MultiSet(items, _, _) => exists i :: 0 <= i < |items| && items[i].key == key
    case _ => false
  }

  predicate NeverSets(ops: seq<Op>, key: nat) {
    forall i :: 0 <= i < |ops| ==> !Sets(ops[i], key)
  }

  /** The key has no record, and none is to come. */
  predicate Untold(env: Env, a: Model, key: nat) {
    key !in a.stored && LeafKey(env, key) !in a.dirty
  }

  lemma StepUntold(env: Env, a: Model, op: Op, key: nat)
    requires a.OK() && env.Valid() && Untold(env, a, key) && !Sets(op, key)
    ensures Untold(env, Step(env, a, op), key)
  {
    hide PathKeys, PruneTo, TreeHash, JobFor, Undisturbed, Submitted;
    LeafOnPath(env, key);
    if op.MultiSet? {
      SetAllMerges(map[], op.items);
    }
  }

  lemma {:induction false} RunUntold(env: Env, a: Model, ops: seq<Op>, key: nat)
    requires a.OK() && LegalRun(env, a, ops) && env.Valid() && Untold(env, a, key) && NeverSets(ops, key)
    ensures Untold(env, Run(env, a, ops), key)
    decreases |ops|
  {
    hide Step, Legal, Model.OK, Untold, Sets;
    if ops != [] {
      StepOK(env, a, ops[0]);
      StepUntold(env, a, ops[0], key);
      RunUntold(env, Step(env, a, ops[0]), ops[1..], key);
    }
  }

  // ---- what runs mean ----

  /** No operation of the run rolls back below `v`. */
  predicate StaysAbove(ops: seq<Op>, v: nat) {
    forall i :: 0 <= i < |ops| && ops[i].Rollback? ==> ops[i].v >= v
  }

  /** A tree of which nothing has been committed is not opened again: there is nothing it could be
      opened from. */
  predicate KeptOnDisk(a: Model, ops: seq<Op>) {
    a.latest.Some? || forall i :: 0 <= i < |ops| ==> !ops[i].Reopen?
  }

  lemma StepKeepsSnapshots(env: Env, a: Model, op: Op, v: nat)
    requires a.OK() && Legal(env, a, op) && v <= a.Version() && (op.Rollback? ==> op.v >= v) && (op.Reopen? ==> a.latest.Some?)
    ensures a.latest.Some? ==> Step(env, a, op).latest.Some?
    ensures var b := Step(env, a, op);
      v <= b.Version() && b.hist[..v + 1] == a.hist[..v + 1] && b.floor >= Lower(a.floor, v)
  {
    hide PathKeys, WayKeys, SetAll, JobFor, PruneTo, Truncated, TreeHash, Undisturbed, Submitted, LeavesIn;
  }

  /** A snapshot never changes, whatever happens after, until a rollback goes below it. */
  lemma {:induction false} SnapshotsStay(env: Env, a: Model, ops: seq<Op>, v: nat)
    requires a.OK() && LegalRun(env, a, ops) && v <= a.Version() && StaysAbove(ops, v) && KeptOnDisk(a, ops)
    ensures var b := Run(env, a, ops);
      v <= b.Version() && b.hist[..v + 1] == a.hist[..v + 1] && b.floor >= Lower(a.floor, v)
    decreases |ops|
  {
    hide Step, Legal, Model.OK;
    if ops != [] {
      var a' := Step(env, a, ops[0]);
      StepOK(env, a, ops[0]);
      StepKeepsSnapshots(env, a, ops[0], v);
      SnapshotsStay(env, a', ops[1..], v);
    }
  }

  /** Rolling back undoes any run since that version was committed. */
  lemma RollbackUndoes(env: Env, a: Model, ops: seq<Op>)
    requires a.OK() && LegalRun(env, a, ops) && StaysAbove(ops, a.Version()) && KeptOnDisk(a, ops)
    requires Run(env, a, ops).recent <= a.Version() && Readable(Run(env, a, ops).floor, Run(env, a, ops).roots, a.Version())
    ensures var b := Step(env, Run(env, a, ops), Rollback(a.Version()));
      b.hist == a.hist && b.pending == Newest(a.hist) && b.dirty == {}
  {
    hide Run, LegalRun, StaysAbove, KeptOnDisk, Truncated, Step, InReach, Readable;
    SnapshotsStay(env, a, ops, a.Version());
    RollbackStep(env, Run(env, a, ops), a.Version());
  }

  lemma RollbackStep(env: Env, b: Model, v: nat)
    requires b.OK() && b.recent <= v <= b.Version()
    ensures var c := Step(env, b, Rollback(v)); c.hist == b.hist[..v + 1] && c.pending == b.hist[v] && c.dirty == {}
  {
  }

  /** No commit of the run lowers the oldest version on offer. */
  ghost predicate NeverLowers(env: Env, a: Model, ops: seq<Op>)
    requires a.OK() && LegalRun(env, a, ops)
    decreases |ops|
  {
    ops == [] || ((ops[0].Commit? && ops[0].oldest.Some? ==> ops[0].oldest.value >= a.recent)
                  && (StepOK(env, a, ops[0]); NeverLowers(env, Step(env, a, ops[0]), ops[1..])))
  }

  /** Then every version on offer can be read. */
  lemma {:induction false} WindowIsFull(env: Env, a: Model, ops: seq<Op>)
    requires a.OK() && LegalRun(env, a, ops) && NeverLowers(env, a, ops) && a.floor == a.recent
    ensures Run(env, a, ops).floor == Run(env, a, ops).recent
    decreases |ops|
  {
    if ops != [] {
      StepOK(env, a, ops[0]);
      WindowIsFull(env, Step(env, a, ops[0]), ops[1..]);
    }
  }

  /** Setting many leaves at once is setting them one by one. */
  function OneByOne(items: seq<Item>, ver: Option<nat>): seq<Op> {
    seq(|items|, i requires 0 <= i < |items| => Set(items[i].key, items[i].val, ver))
  }

  lemma {:induction false} ManyIsOneByOne(env: Env, a: Model, items: seq<Item>, ver: Option<nat>)
    requires a.OK() && AllInRange(env, items) && a.Next(ver) > a.Version() && a.Joins(a.Next(ver))
    ensures LegalRun(env, a, OneByOne(items, ver))
    ensures Run(env, a, OneByOne(items, ver)) == if items == [] then a
      else a.(pending := SetAll(a.pending, items), pendingVersion := a.Next(ver),
              dirty := a.dirty + WayKeys(env, SetAll(map[], items).Keys))
    decreases |items|
  {
    hide PathKeys;
    if items != [] {
      var ops := OneByOne(items, ver);
      var a' := Step(env, a, ops[0]);
      assert ops[1..] == OneByOne(items[1..], ver);
      StepOK(env, a, ops[0]);
      ManyIsOneByOne(env, a', items[1..], ver);
      WaysAdd(env, items);
    }
  }

  lemma WaysAdd(env: Env, items: seq<Item>)
    requires items != []
    ensures WayKeys(env, SetAll(map[], items).Keys) == PathKeys(env, items[0].key) + WayKeys(env, SetAll(map[], items[1..]).Keys)
    ensures |items| == 1 ==> WayKeys(env, SetAll(map[], items[1..]).Keys) == {}
  {
    hide PathKeys;
    AllKeys(items);
    AllKeys(items[1..]);
    forall k ensures k in KeysOf(items, |items|) <==> k == items[0].key || k in KeysOf(items[1..], |items| - 1) {
      if i :| 0 <= i < |items| && items[i].key == k {
        assert i > 0 ==> items[1..][i - 1].key == k;
      }
      if i :| 0 <= i < |items| - 1 && items[1..][i].key == k {
        assert items[i + 1].key == k;
      }
    }
  }

  /** A parallel set, wherever it is legal, is the sequence of single sets in any order. */
  lemma MultiSetIsSets(env: Env, a: Model, items: seq<Item>, reordered: seq<Item>, ver: Option<nat>, choice: Choice)
    requires a.OK() && Legal(env, a, MultiSet(items, ver, choice)) && AllInRange(env, items) && items != []
    requires Distinct(reordered) && forall x :: x in items <==> x in reordered
    ensures LegalRun(env, a, OneByOne(reordered, ver))
    ensures Step(env, a, MultiSet(items, ver, choice)) == Run(env, a, OneByOne(reordered, ver))
  {
    assert items[0] in reordered;
    forall i | 0 <= i < |reordered| ensures reordered[i].key < Pow2(env.maxDepth) {
      assert reordered[i] in items;
    }
    ManyIsOneByOne(env, a, reordered, ver);
    OrderIsIrrelevant(a.pending, items, reordered);
    OrderIsIrrelevant(map[], items, reordered);
  }

  /** With nothing pending a parallel set of distinct keys is always legal, whatever its keys. */
  lemma CleanSetIsLegal(env: Env, a: Model, items: seq<Item>, ver: Option<nat>, choice: Choice)
    requires a.OK() && a.dirty == {} && Distinct(items) && a.Next(ver) > a.Version()
    ensures Legal(env, a, MultiSet(items, ver, choice))
  {
    NothingStamped(env, a.pending, items, Submitted(env, items));
  }

  // ---- what goes wrong, and how to mend it ----

  /** Whatever a parallel set has left behind, a reset brings back the committed tree. */
  method MultiSetThenReset(tree: SparseMerkleTree, items: seq<Item>, choice: Choice)
    requires tree.Valid() && (tree.journal != map[] ==> tree.pendingVersion == tree.version + 1) && Distinct(items)
    modifies tree, tree.saved, tree.journal.Values
    ensures tree.Valid() && Abs(tree) == old(Abs(tree)).Clean(Newest(old(tree.hist)))
  {
    hide SparseMerkleTree.Valid, SparseMerkleTree.Kept, AllInRange, SetAll, Distinct, WayKeys, Submitted, Job.NoStaleSibling,
      EndsWith, Completes, TreeHash;
    var error, placed, order, schedule := tree.MultiSet(items, choice);
    tree.Reset();
  }

  /** The scheduler's choice makes the workers end with another root than that of the snapshot. */
  ghost predicate Loses(j: Job, choice: Choice) {
    Completes(j, choice.order, choice.plan) && !EndsRight(j, choice.order, choice.plan)
  }

  /** The job of a parallel set of `k` and of a key below the node beside it, four levels below
      the root, while `k` is pending with another value. */
  ghost function StaleJob(env: Env, now: LeafMap, k: nat, a: Digest, k2: nat, b: Digest, c: Digest): Job {
    JobFor(env, now[k := a], PathKeys(env, k), [Item(k, b), Item(k2, c)])
  }

  /** With an injective hash some choice does. */
  lemma SomeChoiceLoses(env: Env, now: LeafMap, k: nat, a: Digest, k2: nat, b: Digest, c: Digest) returns (choice: Choice)
    requires env.Valid() && env.maxDepth >= 8 && Injective(env) && k < Pow2(env.maxDepth) && k2 < Pow2(env.maxDepth)
    requires a != b && PathAt(env, k2, 4) == Xor1(PathAt(env, k, 4))
    ensures Loses(StaleJob(env, now, k, a, k2, b, c), choice)
  {
    hide Injective, Job.NoStaleSibling, LooksFinished, NothingSetBelow, PathKeys, Pow2;
    var items := [Item(k, b), Item(k2, c)];
    StaleItems(env, now[k := a], PathKeys(env, k), k, k2, b, c);
    JobIsValid(env, now[k := a], PathKeys(env, k), items);
    var order, schedule, lost := UpdatesGetLost(StaleJob(env, now, k, a, k2, b, c));
    choice := Choice(false, order, schedule);
  }

  /** Setting `k` to `a`, then a parallel set of `k` and `k2` in which the workers move as that
      choice says: no error is reported, but the root is not that of the snapshot. */
  method UpdatesLost(tree: SparseMerkleTree, k: nat, a: Digest, k2: nat, b: Digest, c: Digest, choice: Choice)
    requires tree.Valid() && tree.journal == map[] && k < Pow2(tree.env.maxDepth) && k2 < Pow2(tree.env.maxDepth) && k != k2
    requires Loses(StaleJob(tree.env, tree.pending, k, a, k2, b, c), choice)
    modifies tree, tree.saved, tree.journal.Values
    ensures tree.pending == old(tree.pending)[k := a][k := b][k2 := c]
    ensures tree.root.Root() != TreeHash(tree.env, tree.pending) && !tree.Valid()
  {
    hide SparseMerkleTree.Valid, SparseMerkleTree.Kept, Pow2, Job.NoStaleSibling, Completes, EndsWith, Loses,
      TreeHash, PathKeys, WayKeys, SetAll;
    var items := [Item(k, b), Item(k2, c)];
    var error := tree.Set(k, a);
    ghost var j := StaleJob(tree.env, old(tree.pending), k, a, k2, b, c);
    assert tree.JobOf(items) == j;
    TwoItems(tree.env, tree.pending, k, b, k2, c);
    ghost var placed, order, schedule;
    LosesCompletes(j, choice);
    error, placed, order, schedule := tree.MultiSet(items, choice);
    WrongRoot(j, choice, tree.root.Root());
    if tree.Valid() { tree.RootHash(); }
  }

  lemma LosesCompletes(j: Job, choice: Choice)
    requires Loses(j, choice)
    ensures Completes(j, choice.order, choice.plan)
  {
  }

  lemma WrongRoot(j: Job, choice: Choice, h: Digest)
    requires Loses(j, choice) && EndsWith(j, choice.order, choice.plan, h)
    ensures h != TreeHash(j.env, j.now)
  {
  }

  lemma TwoItems(env: Env, m: LeafMap, k: nat, b: Digest, k2: nat, c: Digest)
    ensures SetAll(m, [Item(k, b), Item(k2, c)]) == m[k := b][k2 := c]
  {
    assert [Item(k, b), Item(k2, c)][1..] == [Item(k2, c)] && [Item(k2, c)][1..] == [];
    assert SetAll(m[k := b], [Item(k2, c)]) == SetAll(m[k := b][k2 := c], []);
  }

  /** Sets one key and commits. */
  method CommitOne(tree: SparseMerkleTree, k: nat, x: Digest, oldest: Option<nat>)
    requires tree.Valid() && tree.journal == map[] && k < Pow2(tree.env.maxDepth) && (oldest.Some? ==> oldest.value <= tree.version)
    modifies tree, tree.saved, tree.journal.Values, tree.db
    ensures tree.Valid() && tree.journal == map[] && tree.version == old(tree.version) + 1 && fresh(tree.Owned() - old(tree.Owned()))
    ensures tree.pending == old(tree.pending)[k := x] && tree.hist == old(tree.hist) + [tree.pending]
    ensures tree.floor == Raise(old(tree.floor), oldest) && tree.floor <= tree.version
    ensures tree.recentVersion == if oldest.Some? then oldest.value else old(tree.recentVersion)
    ensures VersionsAt(tree.db.db, ROOT_KEY) ==
      PruneTo(old(VersionsAt(tree.db.db, ROOT_KEY)) + [VersionInfo(tree.version, TreeHash(tree.env, tree.pending))], oldest)
  {
    hide SparseMerkleTree.Valid, SparseMerkleTree.Kept, Pow2, TreeHash, NilHash, PruneTo, PathKeys,
      ListsWritten, SparseMerkleTree.CellsSet, SparseMerkleTree.Releases;
    tree.ValidIsKept();
    var error := tree.Set(k, x);
    var r := tree.Commit(oldest, 0);
    tree.ValidIsKept();
  }

  lemma RootsAscend(tree: SparseMerkleTree)
    requires tree.Valid()
    ensures Ascending(VersionsAt(tree.db.db, ROOT_KEY)) && Latest(VersionsAt(tree.db.db, ROOT_KEY)) <= tree.version && tree.floor <= tree.version
  {
    assert ListOK(tree.env, tree.db.db, tree.hist, tree.floor, ROOT_KEY);
  }

  /** Pruning at the last but one entry leaves two. */
  lemma LastTwo(vs: seq<VersionInfo>, e1: VersionInfo, e2: VersionInfo, e3: VersionInfo)
    requires Ascending(vs) && Latest(vs) < e1.ver < e2.ver < e3.ver
    ensures Pruned(vs + [e1] + [e2] + [e3], e2.ver) == [e2, e3]
  {
    hide Pruned, Ascending;
    OrderKeptExactly(vs, e1);
    OrderKeptExactly(vs + [e1], e2);
    OrderKeptExactly(vs + [e1] + [e2], e3);
    var long := vs + [e1] + [e2] + [e3];
    var k := PrunedShape(long, e2.ver);
    assert long[|vs| + 1] == e2 && long[|vs| + 2] == e3;
    assert k == |vs| + 1 && long[|vs| + 1..] == [e2, e3];
  }

  /** Three commits of `k`, the third of which gives the second as the oldest version, and an
      empty one that lowers the oldest version to the first again. */
  method LowerWindow(tree: SparseMerkleTree, k: nat, a: Digest, b: Digest, c: Digest)
    requires tree.Valid() && tree.journal == map[] && k < Pow2(tree.env.maxDepth)
    modifies tree, tree.saved, tree.db
    ensures tree.Valid() && tree.journal == map[] && tree.version == old(tree.version) + 4 && fresh(tree.Owned() - old(tree.Owned()))
    ensures tree.recentVersion == old(tree.version) + 1 && tree.floor == old(tree.version) + 2 && |tree.hist| == tree.version + 1
    ensures tree.hist[old(tree.version) + 1] == old(tree.pending)[k := a]
    ensures |VersionsAt(tree.db.db, ROOT_KEY)| == 2 && VersionsAt(tree.db.db, ROOT_KEY)[0].ver == old(tree.version) + 2
  {
    hide SparseMerkleTree.Valid, SparseMerkleTree.Kept, Pow2, TreeHash, NilHash, Pruned, PathKeys, Ascending,
      ListsWritten, SparseMerkleTree.CellsSet, SparseMerkleTree.Releases;
    var n := tree.version;
    ghost var vs := VersionsAt(tree.db.db, ROOT_KEY);
    RootsAscend(tree);
    tree.ValidIsKept();
    CommitOne(tree, k, a, None);
    ghost var e1 := VersionInfo(tree.version, TreeHash(tree.env, tree.pending));
    CommitOne(tree, k, b, None);
    ghost var e2 := VersionInfo(tree.version, TreeHash(tree.env, tree.pending));
    CommitOne(tree, k, c, Some(n + 2));
    ghost var e3 := VersionInfo(tree.version, TreeHash(tree.env, tree.pending));
    LastTwo(vs, e1, e2, e3);
    var r := tree.Commit(Some(n + 1), 0);
    tree.ValidIsKept();
  }

  /** A rollback to the first of them is not refused, but the root then shows an empty tree. */
  method LoweredRollback(tree: SparseMerkleTree, k: nat, a: Digest, b: Digest, c: Digest)
    requires tree.Valid() && tree.journal == map[] && k < Pow2(tree.env.maxDepth)
    requires TreeHash(tree.env, tree.pending[k := a]) != NilHash(tree.env, 0)
    modifies tree, tree.saved, tree.db
    ensures tree.version == old(tree.version) + 1 && tree.pending == old(tree.pending)[k := a]
    ensures tree.root.Root() != TreeHash(tree.env, tree.pending) && !tree.Valid()
  {
    hide SparseMerkleTree.Valid, SparseMerkleTree.Kept, SparseMerkleTree.ListsCut, Pow2, TreeHash, NilHash;
    var n := tree.version;
    LowerWindow(tree, k, a, b, c);
    var error := tree.Rollback(n + 1);
    if tree.Valid() { tree.RootHash(); }
  }

  method CommitEarly(tree: SparseMerkleTree, k: nat, a: Digest)
    requires tree.Valid() && tree.journal == map[] && k < Pow2(tree.env.maxDepth)
    modifies tree, tree.saved, tree.db
    ensures tree.Kept() && tree.pending == old(tree.pending)[k := a] && tree.root.Root() == TreeHash(tree.env, tree.pending)
    ensures tree.version == old(tree.version) + 1 && tree.floor <= tree.version && tree.recentVersion <= tree.version
    ensures tree.hist == old(tree.hist) + [old(tree.pending), tree.pending] && |tree.hist| == tree.version + 2
  {
    hide SparseMerkleTree.Valid, SparseMerkleTree.Kept, Pow2, TreeHash, PathKeys, PruneTo,
      ListsWritten, SparseMerkleTree.CellsSet, SparseMerkleTree.Releases;
    tree.ValidIsKept();
    ValidIsOK(tree);
    var error := tree.SetWithVersion(k, a, tree.version + 2);
    var c := tree.Commit(None, 0);
  }

  /** A change made for a later version than the next, committed as the next: the root shows it,
      but reading the key at the newest version does not find it. */
  method EarlyCommit(tree: SparseMerkleTree, k: nat, a: Digest) returns (r: Result<Digest>)
    requires tree.Valid() && tree.journal == map[] && k < Pow2(tree.env.maxDepth) && a != LeafHash(tree.env, tree.pending, k)
    requires TreeHash(tree.env, tree.pending[k := a]) != NilHash(tree.env, 0)
    modifies tree, tree.saved, tree.db
    ensures tree.root.Root() == TreeHash(tree.env, old(tree.pending)[k := a]) && tree.version == old(tree.version) + 1
    ensures tree.Tells(r, LeafHash(tree.env, old(tree.pending), k)) && !tree.Tells(r, a)
    ensures !tree.Valid()
  {
    hide SparseMerkleTree.Valid, SparseMerkleTree.Kept, Pow2, TreeHash, NilHash, PathKeys, LeafHash, PruneTo, InReach;
    CommitEarly(tree, k, a);
    r := tree.Get(k, None);
    if tree.Valid() { tree.ValidIsKept(); }
  }

  /** Setting a key to `a`, then a parallel set of the same key to `b` with a key out of range
      behind it. The set is refused, but the leaf shows `b` while the root stands for `a`: the
      tree is not in order any more, and no snapshot has that root and that leaf. */
  method RefusedButDone(tree: SparseMerkleTree, k: nat, a: Digest, b: Digest, bad: Item)
    requires tree.Valid() && tree.journal == map[] && k < Pow2(tree.env.maxDepth) <= bad.key && a != b
    modifies tree, tree.saved, tree.journal.Values
    ensures !tree.Valid() && tree.Kept() && tree.pending == old(tree.pending)[k := a]
    ensures LeafKey(tree.env, k) in tree.journal && tree.journal[LeafKey(tree.env, k)].Root() == b
    ensures Injective(tree.env) ==> forall m :: TreeHash(tree.env, m) == tree.root.Root() ==> LeafHash(tree.env, m, k) == a
  {
    var env := tree.env;
    var items := [Item(k, b), bad];
    hide SparseMerkleTree.Valid, SparseMerkleTree.Kept, Pow2, PathKeys, Injective, TreeHash;
    var error := tree.Set(k, a);
    LeafIsPending(tree, k);
    DisturbingItems(env, tree.pending, tree.journal.Keys, k, b, bad);
    ghost var placed, order, schedule;
    error, placed, order, schedule := tree.MultiSet(items, Choice(true, [], []));
    SetAllHas(map[], items, 0);
    assert tree.ShowsItem(items, k);
    if Injective(env) {
      forall m | TreeHash(env, m) == tree.root.Root() ensures LeafHash(env, m, k) == a {
        RootFixesLeaves(env, m, tree.pending, k);
      }
    }
  }

  lemma LeafIsPending(tree: SparseMerkleTree, k: nat)
    requires tree.env.Valid() && PathKeys(tree.env, k) <= tree.journal.Keys
    ensures LeafKey(tree.env, k) in tree.journal
  {
    PathKeysAre(tree.env, k, LeafKey(tree.env, k));
    assert PathAt(tree.env, k, tree.env.maxDepth) == k;
  }
}
