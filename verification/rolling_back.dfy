/** Rolling back: what one subtree holds before, during and after, in the store, in the write
    batch and in memory. */
module RollingBack {
  import opened MerkleSpec
  import opened PackedNode
  import opened VersionList
  import opened Database
  import opened History
  import opened TreeNodes
  import opened NodeState
  import opened Proofs

  /** The committed state `s` is to be taken back to version `v`. */
  ghost predicate CanGoBack(s: TreeState, v: nat) {
    s.Ready() && s.journal == map[] && v < |s.hist|
  }

  /** Neither the store `d` nor the store with the batch, `t`, has a change for `key`. */
  ghost predicate Unread(s: TreeState, d: Table, t: Table, key: Key) {
    RecAt(d, key) == RecAt(s.m, key) && RecAt(t, key) == RecAt(s.m, key)
  }

  /** `key` has been taken back to `v` in `t`: its slots are what its children's lists showed
      at that version. */
  ghost predicate Turned(s: TreeState, v: nat, t: Table, key: Key)
    requires KeyOK(s.env, key)
  {
    VersionsAt(t, key) == Truncated(VersionsAt(s.m, key), v) && RecordBackOK(s, v, t, key)
  }

  ghost predicate RecordBackOK(s: TreeState, v: nat, t: Table, key: Key)
    requires KeyOK(s.env, key)
  {
    RecordLinks(s.env, t, key) &&
    (Interior(s.env, key) && RecAt(t, key).Some? ==> RecAt(t, key).value.internals == ShownPack(s.env, s.m, key, v))
  }

  ghost predicate SubtreeUnread(s: TreeState, d: Table, t: Table, top: Key) {
    forall key {:trigger Unread(s, d, t, key)} :: KeyOK(s.env, key) && Under(key, top) ==> Unread(s, d, t, key)
  }

  ghost predicate SubtreeTurned(s: TreeState, v: nat, t: Table, top: Key) {
    forall key {:trigger Turned(s, v, t, key)} :: KeyOK(s.env, key) && Under(key, top) ==> Turned(s, v, t, key)
  }

  /** A step from (d, t) to (d', t') that leaves every node outside `top` alone; the store may
      have taken over what the batch held. */
  ghost predicate KeyAlone(d: Table, t: Table, d': Table, t': Table, key: Key) {
    RecAt(t', key) == RecAt(t, key) && (RecAt(d', key) == RecAt(d, key) || RecAt(d', key) == RecAt(t, key))
  }

  ghost predicate OutsideAlone(d: Table, t: Table, d': Table, t': Table, top: Key) {
    forall key {:trigger KeyAlone(d, t, d', t', key)} :: !Under(key, top) ==> KeyAlone(d, t, d', t', key)
  }

  ghost predicate CellsAlone(t: Table, t': Table) {
    && (forall key :: NodeKey(key) in t' ==> t'[NodeKey(key)].Stored?)
    && (forall key :: NodeKey(key) in t' <==> NodeKey(key) in t)
    && (RecentVersionKey in t' <==> RecentVersionKey in t)
    && (RecentVersionKey in t' ==> t'[RecentVersionKey] == t[RecentVersionKey])
  }

  /** The state the nodes `kept` belong to once everything below has been taken back. */
  function Back(s: TreeState, v: nat, t: Table, kept: set<TreeNode>): TreeState
    requires v < |s.hist|
  {
    TreeState(s.env, t, s.hist[..v + 1], Lower(s.floor, v), s.hist[v], s.ver, kept, map[])
  }

  /** A node object of the state after. */
  ghost predicate BackNode(s: TreeState, v: nat, t: Table, kept: set<TreeNode>, n: TreeNode)
    requires v < |s.hist|
    reads n
  {
    && Back(s, v, t, kept).SavedLinks(n, n.children) && |n.internals| == 14
    && (!n.temporary && Interior(s.env, n.Id()) ==> n.internals == ShownPack(s.env, s.m, n.Id(), v))
  }

  // ---- a subtree that has not changed since v ----

  lemma QuietTurned(s: TreeState, v: nat, d: Table, t: Table, top: Key, key: Key)
    requires CanGoBack(s, v) && KeyOK(s.env, top) && Latest(VersionsAt(s.m, top)) <= v
    requires SubtreeUnread(s, d, t, top) && KeyOK(s.env, key) && Under(key, top)
    ensures Turned(s, v, t, key) && Latest(VersionsAt(s.m, key)) <= v
    ensures VersionsAt(t, key) == VersionsAt(s.m, key)
    ensures Interior(s.env, key) ==> ShownPack(s.env, s.m, key, v) == PackSpec(s.env, key, s.Last())
  {
    hide ShownPack, Pruned, Truncated, PackSpec, ChildSpec, PathAt, RecordOK;
    QuietList(s, v, key, top);
    assert Unread(s, d, t, key);
    if Interior(s.env, key) {
      forall i | 0 <= i < 16 ensures VersionsAt(t, key.Child(i)) == VersionsAt(s.m, key.Child(i)) {
        ChildUnder(key, i);
        UnderTransitive(key.Child(i), key, top);
        assert Unread(s, d, t, key.Child(i));
      }
      QuietPack(s, v, key, top);
    }
    QuietRecord(s, v, t, key);
  }

  /** A node below an unchanged one has not changed either. */
  lemma QuietList(s: TreeState, v: nat, key: Key, top: Key)
    requires CanGoBack(s, v) && KeyOK(s.env, top) && Latest(VersionsAt(s.m, top)) <= v
    requires KeyOK(s.env, key) && Under(key, top)
    ensures Latest(VersionsAt(s.m, key)) <= v && Truncated(VersionsAt(s.m, key), v) == VersionsAt(s.m, key)
    ensures Shows(s.env, s.m, key, v) == KeyHash(s.env, key, s.Last())
    ensures RecordOK(s.env, s.m, s.Last(), key)
  {
    hide Truncated, PackSpec, ChildSpec, PathAt, RecordOK, Under;
    var w := |s.hist| - 1;
    ChainVersions(s.env, s.m, s.hist, s.floor, key, top, w);
    assert ListOK(s.env, s.m, s.hist, s.floor, key) && ListOK(s.env, s.m, s.hist, s.floor, top);
    LookupLatest(VersionsAt(s.m, key), w);
    LookupLatest(VersionsAt(s.m, top), w);
    LookupLatest(VersionsAt(s.m, key), v);
    assert ReadsAs(s.env, s.m, s.hist[w], key, w);
    assert RecordOK(s.env, s.m, s.Last(), key);
  }

  /** The slots of an unchanged node are what its children's lists show. */
  lemma QuietPack(s: TreeState, v: nat, key: Key, top: Key)
    requires CanGoBack(s, v) && KeyOK(s.env, top) && Latest(VersionsAt(s.m, top)) <= v
    requires Interior(s.env, key) && Under(key, top)
    ensures ShownPack(s.env, s.m, key, v) == PackSpec(s.env, key, s.Last())
  {
    hide Truncated, RecordOK, Under, CanGoBack, Shows;
    var shown := seq(16, i requires 0 <= i < 16 => Shows(s.env, s.m, key.Child(i), v));
    forall i | 0 <= i < 16 ensures shown[i] == ChildSpec(s.env, key, s.Last())[i] {
      ChildUnder(key, i);
      UnderTransitive(key.Child(i), key, top);
      QuietList(s, v, key.Child(i), top);
    }
    assert shown == ChildSpec(s.env, key, s.Last());
  }

  lemma QuietRecord(s: TreeState, v: nat, t: Table, key: Key)
    requires KeyOK(s.env, key) && RecAt(t, key) == RecAt(s.m, key) && RecordOK(s.env, s.m, s.Last(), key)
    requires Interior(s.env, key) ==> ShownPack(s.env, s.m, key, v) == PackSpec(s.env, key, s.Last())
    requires Interior(s.env, key) ==> forall i :: 0 <= i < 16 ==> VersionsAt(t, key.Child(i)) == VersionsAt(s.m, key.Child(i))
    ensures RecordBackOK(s, v, t, key)
  {
  }

  lemma QuietSubtreeTurned(s: TreeState, v: nat, d: Table, t: Table, top: Key)
    requires CanGoBack(s, v) && KeyOK(s.env, top) && Latest(VersionsAt(s.m, top)) <= v
    requires SubtreeUnread(s, d, t, top)
    ensures SubtreeTurned(s, v, t, top)
  {
    forall key | KeyOK(s.env, key) && Under(key, top) ensures Turned(s, v, t, key) {
      QuietTurned(s, v, d, t, top, key);
    }
  }

  /** All node objects below an unchanged node are good nodes of the older state. */
  lemma QuietNodes(s: TreeState, v: nat, d: Table, t: Table, top: Key, nodes: set<TreeNode>, n: TreeNode)
    requires CanGoBack(s, v) && KeyOK(s.env, top) && Latest(VersionsAt(s.m, top)) <= v
    requires SubtreeUnread(s, d, t, top) && n in nodes && Under(n.Id(), top)
    requires s.(saved := nodes).SavedNode(n)
    ensures BackNode(s, v, t, nodes, n)
  {
    hide SubtreeUnread, Turned, Truncated, PackSpec, Under, DbOK;
    QuietTurned(s, v, d, t, top, n.Id());
    if !n.temporary && Interior(s.env, n.Id()) {
      forall i | 0 <= i < 16 ensures Back(s, v, t, nodes).ChildSaved(n.Id().Child(i), n.children[i]) {
        assert s.(saved := nodes).ChildSaved(n.Id().Child(i), n.children[i]);
        ChildUnder(n.Id(), i);
        UnderTransitive(n.Id().Child(i), n.Id(), top);
        QuietTurned(s, v, d, t, top, n.Id().Child(i));
      }
    }
  }

  // ---- steps elsewhere ----

  lemma DisjointSubtrees(key: Key, id: Key, i: nat, j: nat)
    requires i < 16 && j < 16 && i != j && Under(key, id.Child(j))
    ensures !Under(key, id.Child(i))
  {
    if Under(key, id.Child(i)) {
      UnderDisjoint(key, id.Child(i), id.Child(j));
    }
  }

  lemma UnreadStays(s: TreeState, d: Table, t: Table, d': Table, t': Table, id: Key, i: nat, j: nat)
    requires i < 16 && j < 16 && i != j
    requires OutsideAlone(d, t, d', t', id.Child(i)) && SubtreeUnread(s, d, t, id.Child(j))
    ensures SubtreeUnread(s, d', t', id.Child(j))
  {
    forall key | KeyOK(s.env, key) && Under(key, id.Child(j)) ensures Unread(s, d', t', key) {
      DisjointSubtrees(key, id, i, j);
      assert KeyAlone(d, t, d', t', key) && Unread(s, d, t, key);
    }
  }

  lemma TurnedStays(s: TreeState, v: nat, d: Table, t: Table, d': Table, t': Table, id: Key, i: nat, j: nat)
    requires i < 16 && j < 16 && i != j && v < |s.hist|
    requires OutsideAlone(d, t, d', t', id.Child(i)) && SubtreeTurned(s, v, t, id.Child(j))
    ensures SubtreeTurned(s, v, t', id.Child(j))
  {
    forall key | KeyOK(s.env, key) && Under(key, id.Child(j)) ensures Turned(s, v, t', key) {
      DisjointSubtrees(key, id, i, j);
      assert KeyAlone(d, t, d', t', key) && Turned(s, v, t, key);
      if Interior(s.env, key) {
        forall k | 0 <= k < 16 ensures VersionsAt(t', key.Child(k)) == VersionsAt(t, key.Child(k)) {
          ChildUnder(key, k);
          UnderTransitive(key.Child(k), key, id.Child(j));
          DisjointSubtrees(key.Child(k), id, i, j);
          assert KeyAlone(d, t, d', t', key.Child(k));
        }
      }
    }
  }

  /** A node object stays good when only records outside its subtree change. */
  lemma BackStays(s: TreeState, v: nat, t: Table, t': Table, kept: set<TreeNode>, kept': set<TreeNode>, n: TreeNode)
    requires v < |s.hist| && BackNode(s, v, t, kept, n) && kept <= kept'
    requires VersionsAt(t', n.Id()) == VersionsAt(t, n.Id())
    requires forall k :: 0 <= k < 16 ==> VersionsAt(t', n.Id().Child(k)) == VersionsAt(t, n.Id().Child(k))
    ensures BackNode(s, v, t', kept', n)
  {
    if !n.temporary && Interior(s.env, n.Id()) {
      forall k | 0 <= k < 16 ensures Back(s, v, t', kept').ChildSaved(n.Id().Child(k), n.children[k]) {
        assert Back(s, v, t, kept).ChildSaved(n.Id().Child(k), n.children[k]);
      }
    }
  }

  /** Node objects restricted to one subtree still know their children. */
  lemma RestrictSaved(s: TreeState, nodes: set<TreeNode>, part: set<TreeNode>, n: TreeNode)
    requires s.(saved := nodes).SavedNode(n)
    requires forall c :: c in nodes && Under(c.Id(), n.Id()) && c.Id() != n.Id() ==> c in part
    ensures s.(saved := part).SavedNode(n)
  {
    if !n.temporary && n.depth != s.env.maxDepth {
      forall k | 0 <= k < 16 ensures s.(saved := part).ChildSaved(n.Id().Child(k), n.children[k]) {
        assert s.(saved := nodes).ChildSaved(n.Id().Child(k), n.children[k]);
        ChildUnder(n.Id(), k);
      }
    }
  }

  // ---- the children of one node, one after the other ----

  /** Which child of `top` the node `key` is below. */
  function Branch(key: Key, top: Key): (i: nat)
    requires Under(key, top) && key != top
    ensures i < 16 && Under(key, top.Child(i))
    decreases key.depth
  {
    var up := Key(key.depth - 4, key.path / 16);
    if up == top then (assert key == top.Child(key.path % 16); key.path % 16)
    else
      var i := Branch(up, top);
      UnderDeeper(up, top.Child(i));
      i
  }

  ghost predicate Below(key: Key, top: Key, lo: nat, hi: nat) {
    Under(key, top) && key != top && lo <= Branch(key, top) < hi
  }

  lemma BranchUnique(key: Key, top: Key, i: nat)
    requires i < 16 && Under(key, top.Child(i))
    ensures Under(key, top) && key != top && Branch(key, top) == i
  {
    ChildUnder(top, i);
    UnderTransitive(key, top.Child(i), top);
    UnderDisjoint(key, top.Child(i), top.Child(Branch(key, top)));
  }

  /** Everything in store and batch but the nodes strictly below `top` was left alone. */
  ghost predicate ChildrenAlone(d: Table, t: Table, d': Table, t': Table, top: Key) {
    forall key {:trigger KeyAlone(d, t, d', t', key)} :: !Under(key, top) || key == top ==> KeyAlone(d, t, d', t', key)
  }

  /** Store and batch while the children below `id` from `i` on are still to be taken back. */
  ghost predicate TablesMid(s: TreeState, v: nat, d0: Table, t0: Table, d: Table, t: Table, id: Key, i: nat)
    requires v < |s.hist|
  {
    && (forall j :: 0 <= j < i ==> SubtreeTurned(s, v, t, id.Child(j)))
    && (forall j :: i <= j < 16 ==> SubtreeUnread(s, d, t, id.Child(j)))
    && ChildrenAlone(d0, t0, d, t, id)
    && CellsAlone(t0, t) && NodesTyped(d)
  }

  ghost predicate NodesTyped(d: Table) {
    forall key :: NodeKey(key) in d ==> d[NodeKey(key)].Stored?
  }

  lemma TablesStart(s: TreeState, v: nat, d: Table, t: Table, id: Key)
    requires v < |s.hist| && SubtreeUnread(s, d, t, id) && NodesTyped(d) && NodesTyped(t)
    ensures TablesMid(s, v, d, t, d, t, id, 0)
  {
    forall j | 0 <= j < 16 ensures SubtreeUnread(s, d, t, id.Child(j)) {
      forall key | KeyOK(s.env, key) && Under(key, id.Child(j)) ensures Unread(s, d, t, key) {
        ChildUnder(id, j);
        UnderTransitive(key, id.Child(j), id);
      }
    }
  }

  lemma TablesStep(s: TreeState, v: nat, d0: Table, t0: Table, d: Table, t: Table, d': Table, t': Table, id: Key, i: nat)
    requires v < |s.hist| && i < 16 && TablesMid(s, v, d0, t0, d, t, id, i)
    requires SubtreeTurned(s, v, t', id.Child(i)) && OutsideAlone(d, t, d', t', id.Child(i))
    requires CellsAlone(t, t') && NodesTyped(d')
    ensures TablesMid(s, v, d0, t0, d', t', id, i + 1)
  {
    forall j | 0 <= j < i ensures SubtreeTurned(s, v, t', id.Child(j)) {
      TurnedStays(s, v, d, t, d', t', id, i, j);
    }
    forall j | i + 1 <= j < 16 ensures SubtreeUnread(s, d', t', id.Child(j)) {
      UnreadStays(s, d, t, d', t', id, i, j);
    }
    forall key | !Under(key, id) || key == id ensures KeyAlone(d0, t0, d', t', key) {
      if Under(key, id.Child(i)) { BranchUnique(key, id, i); }
      assert KeyAlone(d0, t0, d, t, key) && KeyAlone(d, t, d', t', key);
    }
  }

  /** A child that is not in memory has nothing below it to take back. */
  lemma TablesSkip(s: TreeState, v: nat, d0: Table, t0: Table, d: Table, t: Table, id: Key, i: nat)
    requires CanGoBack(s, v) && i < 16 && TablesMid(s, v, d0, t0, d, t, id, i)
    requires KeyOK(s.env, id) && (KeyOK(s.env, id.Child(i)) ==> VersionsAt(s.m, id.Child(i)) == [])
    ensures TablesMid(s, v, d0, t0, d, t, id, i + 1)
  {
    if KeyOK(s.env, id.Child(i)) {
      QuietSubtreeTurned(s, v, d, t, id.Child(i));
    } else {
      forall key | Under(key, id.Child(i)) ensures !KeyOK(s.env, key) {
        UnderDeeper(key, id.Child(i));
      }
    }
  }

  /** The record of the node itself completes the subtree. */
  lemma TablesEnd(s: TreeState, v: nat, d0: Table, t0: Table, d: Table, t: Table, id: Key, d': Table, r: Record)
    requires v < |s.hist| && KeyOK(s.env, id) && TablesMid(s, v, d0, t0, d, t, id, 16) && NodeKey(id) in t0
    requires r.versions == Truncated(VersionsAt(s.m, id), v) && RecordBackOK(s, v, t[NodeKey(id) := Stored(r)], id)
    requires d' == d || d' == t[NodeKey(id) := Stored(r)]
    ensures var t' := t[NodeKey(id) := Stored(r)];
      SubtreeTurned(s, v, t', id) && OutsideAlone(d0, t0, d', t', id) && CellsAlone(t0, t') && NodesTyped(d')
  {
    var t' := t[NodeKey(id) := Stored(r)];
    forall key | KeyOK(s.env, key) && Under(key, id) ensures Turned(s, v, t', key) {
      if key != id {
        var j := Branch(key, id);
        assert SubtreeTurned(s, v, t, id.Child(j));
        assert Turned(s, v, t, key);
        SameVersions(s, t, t', key, id);
      }
    }
    forall key | !Under(key, id) ensures KeyAlone(d0, t0, d', t', key) {
      assert KeyAlone(d0, t0, d, t, key);
    }
  }

  lemma SameVersions(s: TreeState, t: Table, t': Table, key: Key, id: Key)
    requires Under(key, id) && key != id && forall k :: k != id ==> RecAt(t', k) == RecAt(t, k)
    ensures VersionsAt(t', key) == VersionsAt(t, key)
    ensures forall i :: 0 <= i < 16 ==> VersionsAt(t', key.Child(i)) == VersionsAt(t, key.Child(i))
  {
    UnderDeeper(key, id);
  }

  // ---- the node objects on the way ----

  /** `rest` still belongs to the state before, `kept` already to the state after. */
  ghost predicate NodesMid(s: TreeState, v: nat, t: Table, rest: set<TreeNode>, kept: set<TreeNode>, id: Key, i: nat)
    requires v < |s.hist|
    reads rest, kept
  {
    && (forall n :: n in rest ==> Below(n.Id(), id, i, 16) && s.(saved := rest).SavedNode(n))
    && (forall n :: n in kept ==> Below(n.Id(), id, 0, i) && BackNode(s, v, t, kept, n))
  }

  ghost predicate TurnedPointer(s: TreeState, kept: set<TreeNode>, id: Key, c: TreeNode?)
    reads c
  {
    if c == null then VersionsAt(s.m, id) == [] else c in kept && c.Id() == id && !c.temporary
  }

  /** The node whose children are being taken back. */
  ghost predicate NodeMid(s: TreeState, v: nat, rest: set<TreeNode>, kept: set<TreeNode>, n: TreeNode, i: nat)
    requires v < |s.hist|
    reads n, n.children
  {
    && n.env == s.env && KeyOK(s.env, n.Id()) && n.Shape() && !n.temporary
    && n.versions == Truncated(VersionsAt(s.m, n.Id()), v)
    && (n.depth == s.env.maxDepth ==> forall j :: 0 <= j < 16 ==> n.children[j] == null)
    && (n.depth != s.env.maxDepth ==>
      && (forall j :: 0 <= j < i < 17 && j < 16 ==> TurnedPointer(s, kept, n.Id().Child(j), n.children[j]))
      && (forall j :: i <= j < 16 ==> s.(saved := rest).ChildSaved(n.Id().Child(j), n.children[j])))
  }

  /** The pointer of the branch that has been taken back, and the pointers after it. */
  lemma NodeStep(s: TreeState, v: nat, rest: set<TreeNode>, kept: set<TreeNode>, more: set<TreeNode>, n: TreeNode, i: nat)
    requires v < |s.hist| && i < 16 && NodeMid(s, v, rest, kept, n, i)
    requires n.depth != s.env.maxDepth ==> TurnedPointer(s, more, n.Id().Child(i), n.children[i])
    ensures NodeMid(s, v, rest - Part(rest, n.Id(), i), kept + more, n, i + 1)
  {
    if n.depth != s.env.maxDepth {
      var id := n.Id();
      forall j | 0 <= j <= i ensures TurnedPointer(s, kept + more, id.Child(j), n.children[j]) {
        assert j < i ==> TurnedPointer(s, kept, id.Child(j), n.children[j]);
      }
      forall j | i + 1 <= j < 16
        ensures s.(saved := rest - Part(rest, id, i)).ChildSaved(id.Child(j), n.children[j])
      {
        assert s.(saved := rest).ChildSaved(id.Child(j), n.children[j]);
        if n.children[j] != null && n.children[j] in Part(rest, id, i) {
          UnderDisjoint(id.Child(j), id.Child(i), id.Child(j));
        }
      }
    }
  }

  function Strictly(nodes: set<TreeNode>, id: Key): set<TreeNode> {
    set n | n in nodes && n.Id() != id
  }

  lemma NodesStart(s: TreeState, v: nat, t: Table, nodes: set<TreeNode>, id: Key)
    requires v < |s.hist| && forall n :: n in nodes ==> Under(n.Id(), id)
    requires forall n :: n in nodes && n.Id() != id ==> s.(saved := nodes).SavedNode(n)
    ensures NodesMid(s, v, t, Strictly(nodes, id), {}, id, 0)
  {
    var rest := Strictly(nodes, id);
    forall n | n in rest ensures s.(saved := rest).SavedNode(n) {
      forall c | c in nodes && Under(c.Id(), n.Id()) && c.Id() != n.Id() ensures c in rest {
        UnderDeeper(c.Id(), n.Id());
        UnderDeeper(n.Id(), id);
      }
      RestrictSaved(s, nodes, rest, n);
    }
  }

  /** The objects of one branch. */
  function Part(rest: set<TreeNode>, id: Key, i: nat): set<TreeNode>
    requires i < 16
  {
    set n | n in rest && Under(n.Id(), id.Child(i))
  }

  lemma PartSaved(s: TreeState, v: nat, t: Table, rest: set<TreeNode>, kept: set<TreeNode>, id: Key, i: nat, n: TreeNode)
    requires v < |s.hist| && NodesMid(s, v, t, rest, kept, id, i) && i < 16 && n in Part(rest, id, i)
    ensures s.(saved := Part(rest, id, i)).SavedNode(n)
  {
    forall c | c in rest && Under(c.Id(), n.Id()) && c.Id() != n.Id() ensures c in Part(rest, id, i) {
      UnderTransitive(c.Id(), n.Id(), id.Child(i));
    }
    RestrictSaved(s, rest, Part(rest, id, i), n);
  }

  lemma OthersSaved(s: TreeState, rest: set<TreeNode>, id: Key, i: nat, n: TreeNode)
    requires i < 16 && n in rest && n !in Part(rest, id, i) && Below(n.Id(), id, 0, 16)
    requires s.(saved := rest).SavedNode(n)
    ensures s.(saved := rest - Part(rest, id, i)).SavedNode(n)
  {
    forall c | c in rest && Under(c.Id(), n.Id()) && c.Id() != n.Id() ensures c in rest - Part(rest, id, i) {
      var j := Branch(n.Id(), id);
      UnderTransitive(c.Id(), n.Id(), id.Child(j));
      if c in Part(rest, id, i) { UnderDisjoint(c.Id(), id.Child(i), id.Child(j)); }
    }
    RestrictSaved(s, rest, rest - Part(rest, id, i), n);
  }

  lemma KeptStays(s: TreeState, v: nat, d: Table, t: Table, d': Table, t': Table, id: Key, i: nat,
                  kept: set<TreeNode>, kept': set<TreeNode>, n: TreeNode)
    requires v < |s.hist| && i < 16 && OutsideAlone(d, t, d', t', id.Child(i))
    requires Below(n.Id(), id, 0, i) && BackNode(s, v, t, kept, n) && kept <= kept'
    ensures BackNode(s, v, t', kept', n)
  {
    var j := Branch(n.Id(), id);
    DisjointSubtrees(n.Id(), id, i, j);
    assert KeyAlone(d, t, d', t', n.Id());
    forall k | 0 <= k < 16 ensures VersionsAt(t', n.Id().Child(k)) == VersionsAt(t, n.Id().Child(k)) {
      ChildUnder(n.Id(), k);
      UnderTransitive(n.Id().Child(k), n.Id(), id.Child(j));
      DisjointSubtrees(n.Id().Child(k), id, i, j);
      assert KeyAlone(d, t, d', t', n.Id().Child(k));
    }
    BackStays(s, v, t, t', kept, kept', n);
  }

  /** One branch has been taken back and its objects `more` now belong to the state after. */
  lemma NodesStep(s: TreeState, v: nat, d: Table, t: Table, d': Table, t': Table, id: Key, i: nat,
                  rest: set<TreeNode>, kept: set<TreeNode>, more: set<TreeNode>)
    requires v < |s.hist| && i < 16 && OutsideAlone(d, t, d', t', id.Child(i))
    requires forall n :: n in rest ==> Below(n.Id(), id, i, 16)
    requires forall n :: n in rest && n !in Part(rest, id, i) ==> s.(saved := rest).SavedNode(n)
    requires forall n :: n in kept ==> Below(n.Id(), id, 0, i) && BackNode(s, v, t, kept, n)
    requires forall n :: n in more ==> Under(n.Id(), id.Child(i)) && BackNode(s, v, t', more, n)
    ensures NodesMid(s, v, t', rest - Part(rest, id, i), kept + more, id, i + 1)
  {
    forall n | n in rest - Part(rest, id, i)
      ensures Below(n.Id(), id, i + 1, 16) && s.(saved := rest - Part(rest, id, i)).SavedNode(n)
    {
      OthersSaved(s, rest, id, i, n);
    }
    forall n | n in kept + more
      ensures Below(n.Id(), id, 0, i + 1) && BackNode(s, v, t', kept + more, n)
    {
      if n in more {
        BranchUnique(n.Id(), id, i);
        BackStays(s, v, t', t', more, kept + more, n);
      } else {
        KeptStays(s, v, d, t, d', t', id, i, kept, kept + more, n);
      }
    }
  }

  /** A child read from the store joins the objects still to be taken back. */
  lemma NodesGrow(s: TreeState, v: nat, t: Table, rest: set<TreeNode>, kept: set<TreeNode>, id: Key, i: nat,
                  c: TreeNode?, added: set<TreeNode>)
    requires CanGoBack(s, v) && i < 16 && NodesMid(s, v, t, rest, kept, id, i) && KeyOK(s.env, id.Child(i))
    requires Brought(s.env, s.m, id.Child(i), c, added)
    ensures c in added && c.Id() == id.Child(i) && !c.temporary
    ensures NodesMid(s, v, t, rest + added, kept, id, i)
  {
    var r := s.(saved := rest + added);
    NewcomersSaved(r, id.Child(i), c, added);
    forall n | n in rest + added ensures Below(n.Id(), id, i, 16) && r.SavedNode(n) {
      if n in added {
        NewcomerPlace(s, id.Child(i), c, added, n);
        BranchUnique(n.Id(), id, i);
      } else {
        SavedMono(s.(saved := rest), r, n);
      }
    }
  }

  lemma NewcomerPlace(s: TreeState, id: Key, c: TreeNode?, added: set<TreeNode>, n: TreeNode)
    requires Brought(s.env, s.m, id, c, added) && n in added
    ensures Under(n.Id(), id)
  {
    if n != c {
      var k :| 0 <= k < 16 && c.children[k] == n;
      ChildUnder(id, k);
    }
  }

  /** The hash a list shows after being taken back is what it showed at the target version. */
  lemma TurnedHash(s: TreeState, v: nat, key: Key)
    ensures var vs := Truncated(VersionsAt(s.m, key), v);
      (if vs == [] then NilHash(s.env, key.depth) else vs[|vs| - 1].hash) == Shows(s.env, s.m, key, v)
  {
    var vs := VersionsAt(s.m, key);
    TruncateKeepsLookups(vs, v, v);
    LookupLatest(Truncated(vs, v), v);
  }

  lemma TurnedRoots(s: TreeState, v: nat, t: Table, rest: set<TreeNode>, kept: set<TreeNode>, n: TreeNode)
    requires CanGoBack(s, v) && NodeMid(s, v, rest, kept, n, 16) && Interior(s.env, n.Id())
    requires forall j :: 0 <= j < 16 ==> SubtreeTurned(s, v, t, n.Id().Child(j))
    requires NodesMid(s, v, t, rest, kept, n.Id(), 16)
    ensures Pack(s.env.hash, n.ChildRoots()) == ShownPack(s.env, s.m, n.Id(), v)
    ensures forall j :: 0 <= j < 16 ==>
      (if n.children[j] == null then [] else n.children[j].versions) == VersionsAt(t, n.Id().Child(j))
  {
    hide Slot;
    var id := n.Id();
    var shown := seq(16, i requires 0 <= i < 16 => Shows(s.env, s.m, id.Child(i), v));
    forall j | 0 <= j < 16
      ensures (if n.children[j] == null then [] else n.children[j].versions) == VersionsAt(t, id.Child(j))
      ensures n.ChildRoots()[j] == shown[j]
    {
      assert Under(id.Child(j), id.Child(j)) && Turned(s, v, t, id.Child(j));
      assert TurnedPointer(s, kept, id.Child(j), n.children[j]);
      TurnedHash(s, v, id.Child(j));
      if n.children[j] != null {
        assert BackNode(s, v, t, kept, n.children[j]);
      }
    }
    assert n.ChildRoots() == shown;
  }

  /** The record a node gets once all its children have been taken back. */
  lemma RecordBack(s: TreeState, v: nat, t: Table, rest: set<TreeNode>, kept: set<TreeNode>, n: TreeNode)
    requires CanGoBack(s, v) && NodeMid(s, v, rest, kept, n, 16) && n.Packed()
    requires forall j :: 0 <= j < 16 ==> SubtreeTurned(s, v, t, n.Id().Child(j))
    requires NodesMid(s, v, t, rest, kept, n.Id(), 16)
    ensures RecordBackOK(s, v, t[NodeKey(n.Id()) := Stored(n.ToRecord())], n.Id())
    ensures Interior(s.env, n.Id()) ==> n.internals == ShownPack(s.env, s.m, n.Id(), v)
  {
    hide ShownPack;
    var t' := t[NodeKey(n.Id()) := Stored(n.ToRecord())];
    if Interior(s.env, n.Id()) {
      TurnedRoots(s, v, t, rest, kept, n);
      forall j | 0 <= j < 16 ensures VersionsAt(t', n.Id().Child(j)) == VersionsAt(t, n.Id().Child(j)) {
      }
    }
  }

  /** The node itself joins the objects of the state after. */
  lemma NodesEnd(s: TreeState, v: nat, t: Table, rest: set<TreeNode>, kept: set<TreeNode>, n: TreeNode, x: TreeNode)
    requires CanGoBack(s, v) && NodeMid(s, v, rest, kept, n, 16) && n.Packed()
    requires forall j :: 0 <= j < 16 ==> SubtreeTurned(s, v, t, n.Id().Child(j))
    requires NodesMid(s, v, t, rest, kept, n.Id(), 16) && (x == n || x in kept)
    ensures Under(x.Id(), n.Id())
    ensures BackNode(s, v, t[NodeKey(n.Id()) := Stored(n.ToRecord())], {n} + kept, x)
  {
    var id := n.Id();
    var t' := t[NodeKey(id) := Stored(n.ToRecord())];
    if x == n {
      RecordBack(s, v, t, rest, kept, n);
      NodeBack(s, v, t, t', rest, kept, n);
    } else {
      SameVersions(s, t, t', x.Id(), id);
      BackStays(s, v, t, t', kept, {n} + kept, x);
    }
  }

  lemma NodeBack(s: TreeState, v: nat, t: Table, t': Table, rest: set<TreeNode>, kept: set<TreeNode>, n: TreeNode)
    requires CanGoBack(s, v) && NodeMid(s, v, rest, kept, n, 16)
    requires RecAt(t', n.Id()).Some? && RecAt(t', n.Id()).value.versions == n.versions
    requires forall k :: k != n.Id() ==> RecAt(t', k) == RecAt(t, k)
    requires Interior(s.env, n.Id()) ==> n.internals == ShownPack(s.env, s.m, n.Id(), v)
    requires forall j :: 0 <= j < 16 ==> SubtreeTurned(s, v, t, n.Id().Child(j))
    ensures BackNode(s, v, t', {n} + kept, n)
  {
    var id, b := n.Id(), Back(s, v, t', {n} + kept);
    if n.depth != s.env.maxDepth {
      forall j | 0 <= j < 16 ensures b.ChildSaved(id.Child(j), n.children[j]) {
        assert Under(id.Child(j), id.Child(j)) && Turned(s, v, t, id.Child(j));
        assert TurnedPointer(s, kept, id.Child(j), n.children[j]);
      }
    }
  }

  /** Once the subtree of the root has been taken back, so has the whole store. If the target was
      in reach, store and nodes stand for the history up to it. */
  lemma AllTurned(s: TreeState, v: nat, t: Table, t': Table, kept: set<TreeNode>)
    requires CanGoBack(s, v) && SubtreeTurned(s, v, t, ROOT_KEY)
    requires forall key :: NodeKey(key) in s.m ==> Under(key, ROOT_KEY)
    requires forall key :: !Under(key, ROOT_KEY) ==> RecAt(t, key) == RecAt(s.m, key)
    requires forall key :: RecAt(t', key) == RecAt(t, key)
    requires forall n :: n in kept ==> BackNode(s, v, t, kept, n)
    ensures forall key :: KeyOK(s.env, key) ==> VersionsAt(t', key) == Truncated(VersionsAt(s.m, key), v)
    ensures forall n :: n in kept ==> BackNode(s, v, t', kept, n)
    ensures InReach(s.m, s.floor, v) ==> Back(s, v, t', kept).Nodes()
  {
    hide ShownPack, PackSpec;
    forall key | KeyOK(s.env, key) ensures VersionsAt(t', key) == Truncated(VersionsAt(s.m, key), v) {
      if Under(key, ROOT_KEY) {
        assert Turned(s, v, t, key);
      }
    }
    forall n | n in kept ensures BackNode(s, v, t', kept, n) {
      BackStays(s, v, t, t', kept, kept, n);
    }
    if InReach(s.m, s.floor, v) {
      BackInReach(s, v, t, t', kept);
    }
  }

  lemma BackInReach(s: TreeState, v: nat, t: Table, t': Table, kept: set<TreeNode>)
    requires CanGoBack(s, v) && SubtreeTurned(s, v, t, ROOT_KEY) && InReach(s.m, s.floor, v)
    requires forall key :: NodeKey(key) in s.m ==> Under(key, ROOT_KEY)
    requires forall key :: !Under(key, ROOT_KEY) ==> RecAt(t, key) == RecAt(s.m, key)
    requires forall key :: RecAt(t', key) == RecAt(t, key)
    requires forall key :: KeyOK(s.env, key) ==> VersionsAt(t', key) == Truncated(VersionsAt(s.m, key), v)
    requires forall n :: n in kept ==> BackNode(s, v, t', kept, n)
    ensures Back(s, v, t', kept).Nodes()
  {
    hide ShownPack, PackSpec, InReach, DbOK;
    forall key | KeyOK(s.env, key) ensures RecordOK(s.env, t', s.hist[v], key) {
      if Under(key, ROOT_KEY) {
        assert Turned(s, v, t, key);
        if Interior(s.env, key) { ShownIsPacked(s.env, s.m, s.hist, s.floor, key, v); }
      }
    }
    RollbackKeepsDb(s.env, s.m, t', s.hist, s.floor, v);
    forall n | n in kept ensures Back(s, v, t', kept).SavedNode(n) {
      assert BackNode(s, v, t', kept, n);
      if Interior(s.env, n.Id()) { ShownIsPacked(s.env, s.m, s.hist, s.floor, n.Id(), v); }
    }
  }

  // ---- which targets are right ----

  /** After a rollback the root shows the hash of the target version if and only if that version
      was in reach, or its tree was empty. */
  lemma RootBackExactly(s: TreeState, v: nat)
    requires CanGoBack(s, v)
    ensures Shows(s.env, s.m, ROOT_KEY, v) == TreeHash(s.env, s.hist[v]) <==>
      InReach(s.m, s.floor, v) || TreeHash(s.env, s.hist[v]) == NilHash(s.env, 0)
  {
    ReadsExactly(s.env, s.m, s.hist, s.floor, ROOT_KEY, v);
  }

  /** With an injective hash the same condition decides whether every node does. */
  lemma AllBackExactly(s: TreeState, v: nat)
    requires CanGoBack(s, v) && Injective(s.env)
    ensures (forall key :: KeyOK(s.env, key) && Under(key, ROOT_KEY) ==> ReadsAs(s.env, s.m, s.hist[v], key, v)) <==>
      InReach(s.m, s.floor, v) || TreeHash(s.env, s.hist[v]) == NilHash(s.env, 0)
  {
    hide Injective, BinHash;
    RootBackExactly(s, v);
    assert Under(ROOT_KEY, ROOT_KEY) && KeyOK(s.env, ROOT_KEY);
    if InReach(s.m, s.floor, v) || TreeHash(s.env, s.hist[v]) == NilHash(s.env, 0) {
      forall key | KeyOK(s.env, key) && Under(key, ROOT_KEY) ensures ReadsAs(s.env, s.m, s.hist[v], key, v) {
        if InReach(s.m, s.floor, v) {
          AllInReach(s.env, s.m, s.hist, s.floor, key, v);
        } else {
          EmptyBelow(s.env, s.hist[v], key);
          ReadsExactly(s.env, s.m, s.hist, s.floor, key, v);
        }
      }
    }
  }

  /** Below an empty root everything is empty. */
  lemma EmptyBelow(env: Env, m: LeafMap, key: Key)
    requires env.Valid() && Injective(env) && TreeHash(env, m) == NilHash(env, 0)
    requires KeyOK(env, key) && Under(key, ROOT_KEY)
    ensures KeyHash(env, key, m) == NilHash(env, key.depth)
  {
    hide Injective;
    BinHashEmpty(env, 0, 0);
    BinHashEmpty(env, key.depth, key.path);
    forall k: nat | PathAt(env, k, key.depth) == key.path ensures LeafHash(env, m, k) == LeafHash(env, map[], k) {
      LeafUnder(env, k, env.maxDepth, key);
      UnderTransitive(LeafKey(env, k), key, ROOT_KEY);
      LeafUnder(env, k, env.maxDepth, ROOT_KEY);
      HashFixesLeaves(env, 0, 0, m, map[], k);
    }
    BinHashFrame(env, key.depth, key.path, m, map[]);
  }
}
