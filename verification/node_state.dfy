/** What a node object in memory must hold, said node by node: against the store for a
    committed node, against the pending snapshot for a node of the journal. No statement
    looks further than one node and the identity of its children. */
module NodeState {
  import opened MerkleSpec
  import opened PackedNode
  import opened VersionList
  import opened Database
  import opened History
  import opened TreeNodes

  type Journal = map<Key, TreeNode>

  /** Everything a node is judged by: the store `m` with its readable history, the pending
      snapshot `now` for version `ver`, the committed node objects and the journal. */
  datatype TreeState = TreeState(env: Env, m: Table, hist: Hist, floor: nat, now: LeafMap, ver: nat,
                         saved: set<TreeNode>, journal: Journal)
  {
    ghost predicate Ready() {
      && env.Valid() && DbOK(env, m, hist, floor) && floor < |hist|
      && (journal != map[] ==> |hist| <= ver)
      && Closed(env, journal.Keys) && Agree(env, journal.Keys, Newest(hist), now)
      && forall key :: key in journal ==> journal[key].Id() == key
    }

    function Last(): LeafMap {
      Newest(hist)
    }

    function Versions(id: Key): seq<VersionInfo>
      requires KeyOK(env, id)
    {
      PendingList(env, m, journal.Keys, now, ver, id)
    }

    /** What a committed node may point to for its child `id`. */
    ghost predicate ChildSaved(id: Key, c: TreeNode?) {
      if c == null then VersionsAt(m, id) == [] else c in saved && c.Id() == id
    }

    /** A committed node: complete, or a placeholder for what the store holds. */
    ghost predicate SavedNode(n: TreeNode)
      reads n
    {
      SavedWith(n, n.children)
    }

    /** `n` would be a committed node if its children were `ch`. */
    ghost predicate SavedWith(n: TreeNode, ch: seq<TreeNode?>)
      reads n`internals, n`versions, n`temporary
    {
      && SavedLinks(n, ch) && |n.internals| == 14
      && (!n.temporary && Interior(env, n.Id()) ==> n.internals == PackSpec(env, n.Id(), Last()))
    }

    /** All of it but the slots. */
    ghost predicate SavedLinks(n: TreeNode, ch: seq<TreeNode?>)
      reads n`versions, n`temporary
    {
      && n.env == env && KeyOK(env, n.Id()) && |ch| == 16
      && (n.temporary ==>
        && n.versions != []
        && LastEntry(n.versions) == LastEntry(VersionsAt(m, n.Id())))
      && (!n.temporary ==> n.versions == VersionsAt(m, n.Id()))
      && (if n.temporary || n.depth == env.maxDepth
          then forall i :: 0 <= i < 16 ==> ch[i] == null
          else forall i :: 0 <= i < 16 ==> ChildSaved(n.Id().Child(i), ch[i]))
    }

    ghost predicate ChildPending(id: Key, c: TreeNode?) {
      if id in journal then c == journal[id] else ChildSaved(id, c)
    }

    /** A node of the pending tree: everything agrees with the pending snapshot. */
    ghost predicate PendingNode(n: TreeNode)
      reads n
    {
      PendingWith(n, n.children)
    }

    ghost predicate PendingWith(n: TreeNode, ch: seq<TreeNode?>)
      reads n`internals, n`versions, n`temporary
    {
      && n.env == env && KeyOK(env, n.Id()) && |ch| == 16 && |n.internals| == 14 && !n.temporary
      && n.versions == Versions(n.Id())
      && (Interior(env, n.Id()) ==> n.internals == PackSpec(env, n.Id(), now))
      && (if n.depth == env.maxDepth
          then forall i :: 0 <= i < 16 ==> ch[i] == null
          else forall i :: 0 <= i < 16 ==> ChildPending(n.Id().Child(i), ch[i]))
    }

    ghost predicate AllSaved()
      reads saved
    {
      forall n :: n in saved ==> SavedNode(n)
    }

    ghost predicate AllPending()
      reads journal.Values
    {
      forall key :: key in journal ==> PendingNode(journal[key])
    }

    /** The node objects that the pending tree consists of. */
    ghost predicate Live(n: TreeNode) {
      if n.Id() in journal then n == journal[n.Id()] else n in saved
    }

    ghost predicate Nodes()
      reads saved, journal.Values
    {
      Ready() && AllSaved() && AllPending() && journal.Values !! saved
    }

    /** A committed node that is not dirty is at the same time a node of the pending tree. */
    lemma CleanIsPending(n: TreeNode)
      requires Ready() && SavedNode(n) && !n.temporary && n.Id() !in journal
      ensures PendingNode(n)
    {
      CleanKey(env, journal.Keys, Last(), now, n.Id());
      if Interior(env, n.Id()) {
        forall i | 0 <= i < 16 ensures ChildPending(n.Id().Child(i), n.children[i]) {
          assert ChildSaved(n.Id().Child(i), n.children[i]);
          DirtyParent(env, journal.Keys, n.Id(), i);
        }
      }
    }

    lemma LiveIsPending(n: TreeNode)
      requires Nodes() && Live(n) && !n.temporary
      ensures PendingNode(n)
    {
      if n.Id() !in journal {
        CleanIsPending(n);
      }
    }

    /** The hash shown by what a pending node points to. */
    lemma PendingChildRoot(id: Key, c: TreeNode?)
      requires Nodes() && KeyOK(env, id) && ChildPending(id, c)
      ensures (if c == null then NilHash(env, id.depth) else c.Root()) == KeyHash(env, id, now)
    {
      if id in journal {
        assert PendingNode(journal[id]);
      } else {
        CleanKey(env, journal.Keys, Last(), now, id);
        NewestHash(env, m, hist, floor, id);
        if c != null { assert SavedNode(c); }
      }
    }

    /** The internals of a pending node agree with the hashes its children show. */
    lemma PendingChildRoots(n: TreeNode)
      requires Nodes() && PendingNode(n) && Interior(env, n.Id())
      ensures n.ChildRoots() == ChildSpec(env, n.Id(), now)
      ensures n.Packed()
    {
      forall i | 0 <= i < 16 ensures n.ChildRoots()[i] == ChildSpec(env, n.Id(), now)[i] {
        PendingChildRoot(n.Id().Child(i), n.children[i]);
      }
    }

    /** The root of the pending tree is the native binary Merkle root of the pending snapshot. */
    lemma LiveRoot(n: TreeNode)
      requires Nodes() && Live(n) && !n.temporary
      ensures n.Root() == KeyHash(env, n.Id(), now)
    {
      if n.Id() in journal {
        assert PendingNode(n);
      } else {
        assert SavedNode(n);
        CleanKey(env, journal.Keys, Last(), now, n.Id());
        NewestHash(env, m, hist, floor, n.Id());
      }
    }
  }

  lemma SavedMono(s: TreeState, t: TreeState, n: TreeNode)
    requires s.SavedNode(n) && t == s.(saved := t.saved) && s.saved <= t.saved
    ensures t.SavedNode(n)
  {
    if !n.temporary && Interior(s.env, n.Id()) {
      forall i | 0 <= i < 16 ensures t.ChildSaved(n.Id().Child(i), n.children[i]) {
        assert s.ChildSaved(n.Id().Child(i), n.children[i]);
      }
    }
  }

  lemma PendingMono(s: TreeState, t: TreeState, n: TreeNode)
    requires s.PendingNode(n) && t == s.(saved := t.saved) && s.saved <= t.saved
    ensures t.PendingNode(n)
  {
    if Interior(s.env, n.Id()) {
      forall i | 0 <= i < 16 ensures t.ChildPending(n.Id().Child(i), n.children[i]) {
        assert s.ChildPending(n.Id().Child(i), n.children[i]);
      }
    }
  }

  // ---- nodes read from the store ----

  /** `c` is what reading the record `r` of node `id` gives. */
  ghost predicate Loaded(env: Env, id: Key, r: Record, c: TreeNode)
    requires |r.children| == 16
    reads c, c.children
  {
    && c.env == env && c.Id() == id && c.Shape() && !c.temporary
    && c.versions == r.versions && c.internals == r.internals
    && forall i :: 0 <= i < 16 ==>
         if Listed(r.children[i]) == [] then c.children[i] == null
         else c.children[i] != null && c.children[i].Placeholder(env, id.Child(i), Listed(r.children[i]))
  }

  /** Storing a node and reading it back: the same versions and slots, and the same hashes
      for the node and all sixteen children, whether a child was there or not. */
  lemma RecordRoundTrip(n: TreeNode, c: TreeNode)
    requires n.Shape() && Loaded(n.env, n.Id(), n.ToRecord(), c)
    requires forall i :: 0 <= i < 16 && n.children[i] != null ==> n.children[i].env == n.env && n.children[i].depth == n.depth + 4
    ensures c.Root() == n.Root() && c.internals == n.internals && c.versions == n.versions
    ensures c.ChildRoots() == n.ChildRoots() && (n.Packed() ==> c.Packed())
    ensures forall i :: 0 <= i < 16 ==> Listed(c.ToRecord().children[i]) == Listed(n.ToRecord().children[i])
  {
    hide NilHash, Slot, Pack;
    forall i | 0 <= i < 16 ensures c.ChildRoots()[i] == n.ChildRoots()[i] {
      assert Listed(n.ToRecord().children[i]) == if n.children[i] == null then [] else n.children[i].versions;
    }
  }

  /** The objects that come into memory together with `c`. */
  ghost function Family(c: TreeNode): (s: set<TreeNode>)
    reads c
  {
    {c} + (set x: TreeNode | x in c.children)
  }

  /** What a read from the store, or the lack of a record, brings into memory for `id`. */
  ghost predicate Brought(env: Env, m: Table, id: Key, c: TreeNode?, added: set<TreeNode>)
    reads c, if c != null then c.children else []
  {
    match RecAt(m, id)
    case Some(r) => c != null && |r.children| == 16 && Loaded(env, id, r, c) && added == Family(c)
    case None =>
      && c != null && c.env == env && c.Id() == id && c.Fresh() && added == {c}
      && (Interior(env, id) ==> c.internals == PackSpec(env, id, map[]))
  }

  /** A node read from the store, and the placeholders below it, are good committed nodes. */
  lemma LoadedIsSaved(s: TreeState, id: Key, c: TreeNode)
    requires s.Ready() && KeyOK(s.env, id)
    requires RecAt(s.m, id).Some? && |RecAt(s.m, id).value.children| == 16
    requires Loaded(s.env, id, RecAt(s.m, id).value, c) && Family(c) <= s.saved
    ensures forall n :: n in Family(c) ==> s.SavedNode(n)
  {
    var r := RecAt(s.m, id).value;
    assert RecordOK(s.env, s.m, s.Last(), id);
    forall i | 0 <= i < 16 && c.children[i] != null
      ensures c.children[i] in s.saved && s.SavedNode(c.children[i])
    {
      assert c.children[i] in c.children;
    }
    assert s.SavedNode(c);
  }

  lemma FreshIsSaved(s: TreeState, c: TreeNode)
    requires s.Ready() && KeyOK(s.env, c.Id())
    requires RecAt(s.m, c.Id()).None? && c.Fresh() && c.env == s.env
    requires Interior(s.env, c.Id()) ==> c.internals == PackSpec(s.env, c.Id(), map[])
    ensures s.SavedNode(c)
  {
    AbsentKey(s.env, s.m, s.hist, s.floor, c.Id());
    if Interior(s.env, c.Id()) {
      forall i | 0 <= i < 16 ensures VersionsAt(s.m, c.Id().Child(i)) == [] {
        AbsentChild(s.env, s.m, s.hist, s.floor, c.Id(), i);
      }
    }
  }

  lemma NewcomersSaved(s: TreeState, id: Key, c: TreeNode?, added: set<TreeNode>)
    requires s.Ready() && KeyOK(s.env, id) && Brought(s.env, s.m, id, c, added) && added <= s.saved
    ensures c in added && c.Id() == id && !c.temporary
    ensures forall n :: n in added ==> s.SavedNode(n)
  {
    if RecAt(s.m, id).Some? {
      LoadedIsSaved(s, id, c);
    } else {
      FreshIsSaved(s, c);
    }
  }

  /** Bringing a child into memory: the node that gets the pointer and all other nodes are
      as good as before. */
  lemma ExtensionKeeps(s: TreeState, t: TreeState, node: TreeNode, was: seq<TreeNode?>, nibble: nat, added: set<TreeNode>)
    requires s.Ready() && t == s.(saved := s.saved + added) && nibble < 16
    requires forall n :: n in s.saved && n != node ==> s.SavedNode(n)
    requires forall key :: key in s.journal && s.journal[key] != node ==> s.PendingNode(s.journal[key])
    requires forall n :: n in added ==> t.SavedNode(n)
    requires node in s.saved ==> s.SavedWith(node, was)
    requires node in s.journal.Values ==> s.PendingWith(node, was)
    requires |was| == |node.children| == 16 && node.children == was[nibble := node.children[nibble]]
    requires !node.temporary && Interior(s.env, node.Id()) && node !in added
    requires node in s.saved ==> t.ChildSaved(node.Id().Child(nibble), node.children[nibble])
    requires node in s.journal.Values ==> t.ChildPending(node.Id().Child(nibble), node.children[nibble])
    ensures t.AllSaved() && t.AllPending()
  {
    forall n | n in t.saved ensures t.SavedNode(n) {
      if n == node {
        forall i | 0 <= i < 16 ensures t.ChildSaved(n.Id().Child(i), n.children[i]) {
          assert s.ChildSaved(n.Id().Child(i), was[i]);
        }
      } else if n !in added {
        SavedMono(s, t, n);
      }
    }
    forall key | key in t.journal ensures t.PendingNode(t.journal[key]) {
      var n := t.journal[key];
      if n == node {
        forall i | 0 <= i < 16 ensures t.ChildPending(n.Id().Child(i), n.children[i]) {
          assert s.ChildPending(n.Id().Child(i), was[i]);
        }
      } else {
        PendingMono(s, t, n);
      }
    }
  }

  /** What is known of a node of the pending tree and of the record of one of its children. */
  lemma ReadyToExtend(s: TreeState, node: TreeNode, nibble: nat)
    requires s.Nodes() && s.Live(node) && !node.temporary && Interior(s.env, node.Id()) && nibble < 16
    ensures node in s.saved ==> s.SavedNode(node) && node !in s.journal.Values && node.Id().Child(nibble) !in s.journal
    ensures node in s.saved ==> s.ChildSaved(node.Id().Child(nibble), node.children[nibble])
    ensures s.PendingNode(node) && node.Shape() && KeyOK(s.env, node.Id().Child(nibble))
    ensures s.ChildPending(node.Id().Child(nibble), node.children[nibble])
    ensures node.Id().Child(nibble) in s.journal ==>
      node.children[nibble] in s.journal.Values && !node.children[nibble].temporary
    ensures RecordOK(s.env, s.m, s.Last(), node.Id().Child(nibble))
  {
    s.LiveIsPending(node);
    DirtyParent(s.env, s.journal.Keys, node.Id(), nibble);
    if node.Id().Child(nibble) in s.journal {
      assert s.ChildPending(node.Id().Child(nibble), node.children[nibble]);
      assert s.PendingNode(s.journal[node.Id().Child(nibble)]);
    }
  }
}
