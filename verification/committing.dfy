/** Committing the journal: what each written record holds, in whatever order the nodes are
    written, and how the journal's nodes become the committed nodes. Releasing memory afterwards. */
module Committing {
  import opened MerkleSpec
  import opened PackedNode
  import opened VersionList
  import opened Database
  import opened History
  import opened TreeNodes
  import opened NodeState

  /** A journal node in the middle of a commit: written ones have been pruned. */
  ghost predicate MidNode(s: TreeState, oldest: Option<nat>, written: bool, n: TreeNode)
    reads n
  {
    MidRest(s, n) && n.versions == (if written then PruneTo(s.Versions(n.Id()), oldest) else s.Versions(n.Id()))
  }

  /** All of it but the version list. */
  ghost predicate MidRest(s: TreeState, n: TreeNode)
    reads n`children, n`internals, n`temporary
  {
    && n.env == s.env && KeyOK(s.env, n.Id()) && |n.children| == 16 && |n.internals| == 14 && !n.temporary
    && (Interior(s.env, n.Id()) ==> n.internals == PackSpec(s.env, n.Id(), s.now))
    && (if n.depth == s.env.maxDepth
        then forall i :: 0 <= i < 16 ==> n.children[i] == null
        else forall i :: 0 <= i < 16 ==> s.ChildPending(n.Id().Child(i), n.children[i]))
  }

  ghost predicate MidJournal(s: TreeState, oldest: Option<nat>, done: set<Key>)
    reads s.journal.Values
  {
    forall key :: key in s.journal ==> MidNode(s, oldest, key in done, s.journal[key])
  }

  ghost predicate CommitReady(s: TreeState) {
    s.Ready() && |s.hist| <= s.ver
  }

  /** The commit makes version `last` the newest one. */
  ghost predicate CommitsTo(s: TreeState, oldest: Option<nat>, last: nat) {
    && CommitReady(s) && s.ver <= last + 1 && (oldest.Some? ==> oldest.value <= last)
    && (if s.journal == map[] then s.now == s.Last() else s.ver <= last)
  }

  lemma PendingListShape(s: TreeState, oldest: Option<nat>, id: Key)
    requires CommitReady(s) && KeyOK(s.env, id)
    ensures Ascending(s.Versions(id))
    ensures LastEntry(PruneTo(s.Versions(id), oldest)) == LastEntry(s.Versions(id))
  {
    assert ListOK(s.env, s.m, s.hist, s.floor, id);
    assert Ascending(s.Versions(id));
    PruneToFacts(s.Versions(id), oldest);
  }

  /** The list a child shows ends with the child's newest pending entry, pruned or not. */
  lemma ChildNewest(s: TreeState, oldest: Option<nat>, done: set<Key>, id: Key, c: TreeNode?)
    requires CommitReady(s) && KeyOK(s.env, id) && s.AllSaved() && MidJournal(s, oldest, done)
    requires s.ChildPending(id, c)
    ensures LastEntry(if c == null then [] else c.versions) == LastEntry(s.Versions(id))
  {
    PendingListShape(s, oldest, id);
    if id in s.journal {
      assert MidNode(s, oldest, id in done, s.journal[id]);
    } else if c != null {
      assert s.SavedNode(c);
    }
  }

  /** The record stored for a pruned journal node. */
  lemma RecordOfNode(s: TreeState, oldest: Option<nat>, done: set<Key>, n: TreeNode)
    requires CommitReady(s) && s.AllSaved() && MidJournal(s, oldest, done)
    requires n.Id() in s.journal && n == s.journal[n.Id()] && n.Id() in done
    ensures n.Shape() && KeyOK(s.env, n.Id())
    ensures WrittenOK(s.env, s.m, n.ToRecord(), s.journal.Keys, s.now, s.ver, oldest, n.Id())
  {
    hide CommitReady, TreeState.AllSaved, MidJournal, PackSpec, PruneTo, PendingList, LastEntry;
    var id := n.Id();
    MidSelf(s, oldest, done, id);
    forall i | 0 <= i < 16 && Interior(s.env, id)
      ensures LastEntry(if n.children[i] == null then [] else n.children[i].versions) == LastEntry(s.Versions(id.Child(i)))
    {
      ChildNewest(s, oldest, done, id.Child(i), n.children[i]);
    }
    RecordFits(s, oldest, n);
  }

  lemma MidSelf(s: TreeState, oldest: Option<nat>, done: set<Key>, id: Key)
    requires MidJournal(s, oldest, done) && id in s.journal
    ensures MidNode(s, oldest, id in done, s.journal[id])
  {
  }

  lemma RecordFits(s: TreeState, oldest: Option<nat>, n: TreeNode)
    requires MidNode(s, oldest, true, n)
    requires Interior(s.env, n.Id()) ==> forall i :: 0 <= i < 16 ==>
      LastEntry(if n.children[i] == null then [] else n.children[i].versions) == LastEntry(s.Versions(n.Id().Child(i)))
    ensures WrittenOK(s.env, s.m, n.ToRecord(), s.journal.Keys, s.now, s.ver, oldest, n.Id())
  {
    hide PackSpec, PruneTo, LastEntry, PendingList;
    var r := n.ToRecord();
    forall i | 0 <= i < 16 ensures Listed(r.children[i]) == if n.children[i] == null then [] else n.children[i].versions {
    }
  }

  /** The committed nodes after a commit: the clean ones and the journal's. */
  function SavedAfter(s: TreeState): set<TreeNode> {
    (set n | n in s.saved && n.Id() !in s.journal) + s.journal.Values
  }

  function Committed(s: TreeState, m': Table, oldest: Option<nat>, last: nat): TreeState
    requires |s.hist| <= s.ver <= last + 1
  {
    TreeState(s.env, m', Extend(s.hist, s.ver, s.now, last), Raise(s.floor, oldest), s.now, s.ver, SavedAfter(s), map[])
  }

  lemma NewestCommitted(s: TreeState, oldest: Option<nat>, last: nat)
    requires CommitsTo(s, oldest, last)
    ensures Newest(Extend(s.hist, s.ver, s.now, last)) == s.now
  {
  }

  lemma CleanStaysSaved(s: TreeState, m': Table, oldest: Option<nat>, last: nat, n: TreeNode)
    requires CommitsTo(s, oldest, last) && Written(s.env, s.m, m', s.journal.Keys, s.now, s.ver, oldest)
    requires s.SavedNode(n) && n in s.saved && n.Id() !in s.journal
    ensures Committed(s, m', oldest, last).SavedNode(n)
  {
    NewestCommitted(s, oldest, last);
    var t, id := Committed(s, m', oldest, last), n.Id();
    assert KeyWritten(s.env, s.m, m', s.journal.Keys, s.now, s.ver, oldest, id);
    CleanKey(s.env, s.journal.Keys, s.Last(), s.now, id);
    if !n.temporary && Interior(s.env, id) {
      forall i | 0 <= i < 16 ensures t.ChildSaved(id.Child(i), n.children[i]) {
        assert s.ChildSaved(id.Child(i), n.children[i]);
        DirtyParent(s.env, s.journal.Keys, id, i);
        assert KeyWritten(s.env, s.m, m', s.journal.Keys, s.now, s.ver, oldest, id.Child(i));
      }
    }
  }

  lemma DirtyBecomesSaved(s: TreeState, m': Table, oldest: Option<nat>, last: nat, n: TreeNode)
    requires CommitsTo(s, oldest, last) && Written(s.env, s.m, m', s.journal.Keys, s.now, s.ver, oldest)
    requires n.Id() in s.journal && n == s.journal[n.Id()] && MidNode(s, oldest, true, n)
    ensures Committed(s, m', oldest, last).SavedNode(n)
  {
    NewestCommitted(s, oldest, last);
    var t, id := Committed(s, m', oldest, last), n.Id();
    assert KeyWritten(s.env, s.m, m', s.journal.Keys, s.now, s.ver, oldest, id);
    if Interior(s.env, id) {
      forall i | 0 <= i < 16 ensures t.ChildSaved(id.Child(i), n.children[i]) {
        assert s.ChildPending(id.Child(i), n.children[i]);
        assert KeyWritten(s.env, s.m, m', s.journal.Keys, s.now, s.ver, oldest, id.Child(i));
      }
    }
  }

  /** After the last write the tree is a committed tree with one more snapshot. */
  lemma CommitKeepsNodes(s: TreeState, m': Table, oldest: Option<nat>, last: nat)
    requires CommitsTo(s, oldest, last) && Written(s.env, s.m, m', s.journal.Keys, s.now, s.ver, oldest)
    requires s.AllSaved() && MidJournal(s, oldest, s.journal.Keys)
    ensures Committed(s, m', oldest, last).Nodes()
  {
    var t := Committed(s, m', oldest, last);
    CommitKeepsDb(s.env, s.m, m', s.hist, s.floor, s.journal.Keys, s.now, s.ver, oldest, last);
    forall n | n in t.saved ensures t.SavedNode(n) {
      if n in s.journal.Values {
        var key :| key in s.journal && s.journal[key] == n;
        assert MidNode(s, oldest, true, s.journal[key]);
        DirtyBecomesSaved(s, m', oldest, last, n);
      } else {
        CleanStaysSaved(s, m', oldest, last, n);
      }
    }
  }

  ghost predicate Stale(n: TreeNode, oldest: nat)
    reads n`versions
  {
    n.versions != [] && Latest(n.versions) < oldest
  }

  /** Below `n` no node in memory is stale: where a stale one was, there is a placeholder, and
      nothing below that. */
  ghost predicate Swept(nodes: set<TreeNode>, n: TreeNode, oldest: nat, maxDepth: nat)
    reads nodes, n
    decreases maxDepth - n.depth
  {
    forall i :: 0 <= i < |n.children| ==> SweptChild(nodes, n, n.children[i], oldest, maxDepth)
  }

  ghost predicate SweptChild(nodes: set<TreeNode>, n: TreeNode, c: TreeNode?, oldest: nat, maxDepth: nat)
    reads nodes
    decreases maxDepth - n.depth, 0
  {
    c != null ==>
      && c in nodes && n.depth < c.depth <= maxDepth
      && if Stale(c, oldest) then c.temporary else Swept(nodes, c, oldest, maxDepth)
  }

  /** A child that has been dealt with: emptied if it is stale, otherwise among the nodes `done`. */
  ghost predicate Handled(nodes: set<TreeNode>, done: set<TreeNode>, n: TreeNode, c: TreeNode?, oldest: nat, maxDepth: nat)
    reads nodes
  {
    c != null ==> c in nodes && n.depth < c.depth <= maxDepth && if Stale(c, oldest) then c.temporary else c in done
  }

  ghost predicate AllHandled(nodes: set<TreeNode>, done: set<TreeNode>, oldest: nat, maxDepth: nat)
    reads nodes
  {
    done <= nodes && forall n, i :: n in done && 0 <= i < |n.children| ==> Handled(nodes, done, n, n.children[i], oldest, maxDepth)
  }

  lemma {:induction false} HandledIsSwept(nodes: set<TreeNode>, done: set<TreeNode>, n: TreeNode, oldest: nat, maxDepth: nat)
    requires AllHandled(nodes, done, oldest, maxDepth) && n in done
    ensures Swept(nodes, n, oldest, maxDepth)
    decreases maxDepth - n.depth
  {
    forall i | 0 <= i < |n.children| ensures SweptChild(nodes, n, n.children[i], oldest, maxDepth) {
      var c := n.children[i];
      assert Handled(nodes, done, n, c, oldest, maxDepth);
      if c != null && !Stale(c, oldest) {
        HandledIsSwept(nodes, done, c, oldest, maxDepth);
      }
    }
  }

  twostate predicate Untouched(x: TreeNode)
    reads x
  {
    x.children == old(x.children) && x.internals == old(x.internals) && x.temporary == old(x.temporary)
  }

  /** The only thing that happens to nodes is that stale ones are emptied. */
  twostate predicate OnlyEmptied(nodes: set<TreeNode>, oldest: nat)
    reads nodes
  {
    forall x :: x in nodes ==>
      && x.versions == old(x.versions)
      && (Untouched(x) || (x.temporary && Stale(x, oldest) && forall i :: 0 <= i < |x.children| ==> x.children[i] == null))
  }

  /** Empties all nodes below `n` whose newest version is older than `oldest`, and no others. Every
      committed node stays a good committed node, and no version list changes. */
  method Release(n: TreeNode, oldest: nat, ghost s: TreeState) returns (ghost done: set<TreeNode>)
    requires s.AllSaved() && n in s.saved
    modifies s.saved
    ensures s.AllSaved() && OnlyEmptied(s.saved, oldest)
    ensures forall x :: x in s.saved && x.depth <= n.depth ==> Untouched(x)
    ensures n in done && AllHandled(s.saved, done, oldest, s.env.maxDepth)
    decreases s.env.maxDepth - n.depth
  {
    hide PackSpec, PendingList, DbOK;
    done := {};
    for i := 0 to 16
      invariant s.AllSaved() && OnlyEmptied(s.saved, oldest)
      invariant forall x :: x in s.saved && x.depth <= n.depth ==> Untouched(x)
      invariant AllHandled(s.saved, done, oldest, s.env.maxDepth)
      invariant |n.children| == 16 && forall j :: 0 <= j < i ==> Handled(s.saved, done, n, n.children[j], oldest, s.env.maxDepth)
    {
      done := ReleaseChild(n, i, oldest, s, done);
    }
    done := done + {n};
  }

  method ReleaseChild(n: TreeNode, i: nat, oldest: nat, ghost s: TreeState, ghost was: set<TreeNode>)
    returns (ghost done: set<TreeNode>)
    requires s.AllSaved() && n in s.saved && i < |n.children| == 16
    requires AllHandled(s.saved, was, oldest, s.env.maxDepth)
    modifies s.saved
    ensures s.AllSaved() && OnlyEmptied(s.saved, oldest) && n.children == old(n.children)
    ensures forall x :: x in s.saved && x.depth <= n.depth ==> Untouched(x)
    ensures was <= done && AllHandled(s.saved, done, oldest, s.env.maxDepth)
    ensures Handled(s.saved, done, n, n.children[i], oldest, s.env.maxDepth)
    decreases s.env.maxDepth - n.depth, 0
  {
    hide PackSpec, PendingList, DbOK;
    done := {};
    assert s.SavedNode(n);
    var c := n.children[i];
    if c != null {
      assert s.ChildSaved(n.Id().Child(i), c);
      assert s.SavedNode(c);
      if |c.versions| > 0 && c.versions[|c.versions| - 1].ver < oldest {
        c.Archive();
        assert s.SavedNode(c);
      } else {
        done := Release(c, oldest, s);
      }
    }
    forall x, j | x in was && 0 <= j < |x.children|
      ensures Handled(s.saved, was, x, x.children[j], oldest, s.env.maxDepth)
    {
      assert x.children[j] != null ==> old(Handled(s.saved, was, x, x.children[j], oldest, s.env.maxDepth));
    }
    done := done + was;
  }
}
