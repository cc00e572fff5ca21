/** Version lists as slices: a copied node shares the cells of its list with the node it was
    made from, so an entry overwritten in one can be seen in the other, and a list that grows
    into a free cell writes where a longer list would have its next entry. */
module SharedLists {
  import opened MerkleSpec
  import opened VersionList

  /** What is stored at every address: the cells of one array, some of which may be free. */
  type Memory = map<nat, seq<VersionInfo>>

  /** A stretch of the cells at an address. */
  datatype Slice = Slice(at: nat, lo: nat, hi: nat)

  predicate Fits(cells: Memory, l: Slice) {
    l.at in cells && l.lo <= l.hi <= |cells[l.at]|
  }

  function View(cells: Memory, l: Slice): seq<VersionInfo>
    requires Fits(cells, l)
  {
    cells[l.at][l.lo..l.hi]
  }

  /** The newest entry has the same version and would be overwritten. */
  predicate Overwrites(vs: seq<VersionInfo>, v: VersionInfo) {
    vs != [] && vs[|vs| - 1].ver == v.ver
  }

  /** What becomes of a list when `v` is published on a copy of it. */
  function Through(vs: seq<VersionInfo>, v: VersionInfo): seq<VersionInfo> {
    if Overwrites(vs, v) then Publish(vs, v) else vs
  }

  /** Publishing on a copy leaves the original as it was if and only if the original does not
      end in an entry of that version with another hash. */
  lemma ThroughExactly(vs: seq<VersionInfo>, v: VersionInfo)
    ensures Through(vs, v) == vs <==> !(vs != [] && vs[|vs| - 1].ver == v.ver && vs[|vs| - 1].hash != v.hash)
  {
    if vs != [] && vs[|vs| - 1].ver == v.ver {
      assert Through(vs, v)[|vs| - 1] == v;
      assert vs == vs[..|vs| - 1] + [vs[|vs| - 1]];
    }
  }

  type Slices = map<Key, Slice>

  ghost predicate AllFit(cells: Memory, ls: Slices) {
    forall id :: id in ls ==> Fits(cells, ls[id])
  }

  /** What the lists hold. */
  ghost function Views(cells: Memory, ls: Slices): map<Key, seq<VersionInfo>>
    requires AllFit(cells, ls)
  {
    map id | id in ls :: View(cells, ls[id])
  }

  /** `a` ends before `b` does, or is elsewhere. */
  predicate Shorter(a: Slice, b: Slice) {
    a.at == b.at ==> a.hi < b.hi
  }

  predicate NotLonger(a: Slice, b: Slice) {
    a.at == b.at ==> a.hi <= b.hi
  }

  /** The cells `b` differ from `a` at most from index `n` on at the address `at`, and in what is new. */
  ghost predicate SameBefore(a: Memory, b: Memory, at: nat, n: nat) {
    forall x :: x in a ==> x in b && |b[x]| == |a[x]| && (if x == at then n <= |a[x]| && b[x][..n] == a[x][..n] else b[x] == a[x])
  }

  /** A list that ends there at the latest does not change. */
  lemma ViewStays(a: Memory, b: Memory, at: nat, n: nat, l: Slice)
    requires SameBefore(a, b, at, n) && Fits(a, l) && (l.at == at ==> l.hi <= n)
    ensures Fits(b, l) && View(b, l) == View(a, l)
  {
    if l.at == at {
      assert View(a, l) == a[at][..n][l.lo..l.hi] && View(b, l) == b[at][..n][l.lo..l.hi];
    }
  }

  lemma ViewsStay(a: Memory, b: Memory, at: nat, n: nat, ls: Slices)
    requires SameBefore(a, b, at, n) && AllFit(a, ls) && forall id :: id in ls && ls[id].at == at ==> ls[id].hi <= n
    ensures AllFit(b, ls) && Views(b, ls) == Views(a, ls)
  {
    forall id | id in ls ensures Fits(b, ls[id]) && View(b, ls[id]) == View(a, ls[id]) {
      ViewStays(a, b, at, n, ls[id]);
    }
  }

  /** One list has been replaced. */
  lemma ViewsWith(a: Memory, b: Memory, ls: Slices, id: Key, l: Slice)
    requires AllFit(a, ls) && AllFit(b, ls - {id}) && Views(b, ls - {id}) == Views(a, ls - {id}) && Fits(b, l)
    ensures AllFit(b, ls[id := l]) && Views(b, ls[id := l]) == Views(a, ls)[id := View(b, l)]
  {
    forall k | k in ls && k != id ensures Fits(b, ls[k]) && View(b, ls[k]) == View(a, ls[k]) {
      assert k in ls - {id};
      assert Views(b, ls - {id})[k] == Views(a, ls - {id})[k];
    }
  }

  lemma WithOne(cells: Memory, ls: Slices, id: Key, l: Slice)
    requires AllFit(cells, ls) && Fits(cells, l)
    ensures AllFit(cells, ls[id := l]) && Views(cells, ls[id := l]) == Views(cells, ls)[id := View(cells, l)]
  {
    hide View;
  }

  /** The lists of all nodes a tree uses: those of the committed nodes, of the journal and of the
      cached leaves. */
  datatype Lists = Lists(saved: Slices, journal: Slices, cached: Slices) {
    /** The list that the next copy of the node is made from. */
    function Current(id: Key): Slice
      requires id in journal || id in saved
    {
      if id in journal then journal[id] else saved[id]
    }

    /** No list of a node is longer than the one its next copy is made from, and while there is
        one in the journal all others are shorter. */
    ghost predicate InLine(id: Key) {
      && (id in journal && id in saved ==> Shorter(saved[id], journal[id]))
      && (id in journal && id in cached ==> Shorter(cached[id], journal[id]))
      && (id in saved && id in cached ==> NotLonger(cached[id], saved[id]))
    }

    /** All lists are in cells of their own nodes, and the lists of each node are in line. */
    ghost predicate Arranged(cells: Memory, owner: map<nat, Key>) {
      && Owned(cells, owner, saved) && Owned(cells, owner, journal) && Owned(cells, owner, cached)
      && forall id: Key {:trigger InLine(id)} :: InLine(id)
    }
  }

  ghost predicate Owned(cells: Memory, owner: map<nat, Key>, ls: Slices) {
    AllFit(cells, ls) && forall id :: id in ls ==> ls[id].at in owner && owner[ls[id].at] == id
  }

  lemma OwnedStays(a: Memory, b: Memory, owner: map<nat, Key>, at: nat, id: Key, ls: Slices)
    requires Owned(a, owner, ls) && AllFit(b, ls) && (at in a ==> at in owner && owner[at] == id)
    ensures Owned(b, owner[at := id], ls)
  {
  }

  /** All lists on the cells of the current list of a node end before it or with it. */
  lemma EndsThere(ls: Lists, cells: Memory, owner: map<nat, Key>, id: Key, n: nat)
    requires ls.Arranged(cells, owner) && (id in ls.journal || id in ls.saved)
    requires var l := ls.Current(id); n == l.hi || (id in ls.journal && n + 1 == l.hi)
    ensures var l := ls.Current(id);
      && (forall k :: k in ls.saved && ls.saved[k].at == l.at ==> ls.saved[k].hi <= n)
      && (forall k :: k in ls.cached && ls.cached[k].at == l.at ==> ls.cached[k].hi <= n)
      && (forall k :: k in ls.journal - {id} ==> ls.journal[k].at != l.at)
  {
    assert ls.InLine(id);
  }

  /** Writing from `n` on at the end of the current list of a node changes no other list. */
  lemma OthersStay(ls: Lists, a: Memory, b: Memory, owner: map<nat, Key>, id: Key, n: nat)
    requires ls.Arranged(a, owner) && (id in ls.journal || id in ls.saved)
    requires var l := ls.Current(id); (n == l.hi || (id in ls.journal && n + 1 == l.hi)) && SameBefore(a, b, l.at, n)
    ensures AllFit(b, ls.saved) && Views(b, ls.saved) == Views(a, ls.saved)
    ensures AllFit(b, ls.cached) && Views(b, ls.cached) == Views(a, ls.cached)
    ensures AllFit(b, ls.journal - {id}) && Views(b, ls.journal - {id}) == Views(a, ls.journal - {id})
  {
    hide Views, SameBefore, Lists.InLine;
    var at := ls.Current(id).at;
    EndsThere(ls, a, owner, id, n);
    ViewsStay(a, b, at, n, ls.saved);
    ViewsStay(a, b, at, n, ls.cached);
    ViewsStay(a, b, at, n, ls.journal - {id});
  }

  /** A new list `l'` of a node, written from `n` on at the end of the current one or in new cells,
      enters the journal: the lists stay arranged, and no other list has changed. */
  lemma JournalChanged(ls: Lists, a: Memory, b: Memory, owner: map<nat, Key>, id: Key, n: nat, l': Slice)
    requires ls.Arranged(a, owner) && (id in ls.journal || id in ls.saved) && Fits(b, l')
    requires var l := ls.Current(id);
      && (n == l.hi || (id in ls.journal && n + 1 == l.hi)) && SameBefore(a, b, l.at, n)
      && (if l'.at == l.at then l'.hi == n + 1 else l'.at !in a)
    ensures ls.(journal := ls.journal[id := l']).Arranged(b, owner[l'.at := id])
    ensures Views(b, ls.journal[id := l']) == Views(a, ls.journal)[id := View(b, l')]
    ensures Views(b, ls.saved) == Views(a, ls.saved) && Views(b, ls.cached) == Views(a, ls.cached)
  {
    hide Views, View, SameBefore, Lists.InLine;
    OthersStay(ls, a, b, owner, id, n);
    ViewsWith(a, b, ls.journal, id, l');
    EndsThere(ls, a, owner, id, n);
    LineStays(ls, a, owner, id, n, l');
    OwnedStays(a, b, owner, l'.at, id, ls.saved);
    OwnedStays(a, b, owner, l'.at, id, ls.cached);
    OwnedStays(a, b, owner, l'.at, id, ls.journal - {id});
    OwnedWith(b, owner[l'.at := id], ls.journal, id, l');
  }

  lemma OwnedWith(b: Memory, owner: map<nat, Key>, ls: Slices, id: Key, l: Slice)
    requires Owned(b, owner, ls - {id}) && Fits(b, l) && l.at in owner && owner[l.at] == id
    ensures Owned(b, owner, ls[id := l])
  {
    forall k | k in ls && k != id ensures Fits(b, ls[k]) && ls[k].at in owner && owner[ls[k].at] == k {
      assert k in ls - {id};
    }
  }

  lemma LineStays(ls: Lists, a: Memory, owner: map<nat, Key>, id: Key, n: nat, l': Slice)
    requires ls.Arranged(a, owner) && (id in ls.journal || id in ls.saved)
    requires var l := ls.Current(id);
      && (forall k :: k in ls.saved && ls.saved[k].at == l.at ==> ls.saved[k].hi <= n)
      && (forall k :: k in ls.cached && ls.cached[k].at == l.at ==> ls.cached[k].hi <= n)
      && (if l'.at == l.at then l'.hi == n + 1 else l'.at !in a)
    ensures var ls' := ls.(journal := ls.journal[id := l']); forall k: Key {:trigger ls'.InLine(k)} :: ls'.InLine(k)
  {
    var ls' := ls.(journal := ls.journal[id := l']);
    forall k: Key {:trigger ls'.InLine(k)} ensures ls'.InLine(k) {
      assert ls.InLine(k);
    }
  }

  /** What has been published on a copy that is dropped shows in the list the copy was made from,
      if there, and nowhere else. */
  lemma CopyDropped(ls: Lists, a: Memory, b: Memory, owner: map<nat, Key>, id: Key, n: nat)
    requires ls.Arranged(a, owner) && (id in ls.journal || id in ls.saved) && Fits(b, ls.Current(id))
    requires var l := ls.Current(id); (n == l.hi || (id in ls.journal && n + 1 == l.hi)) && SameBefore(a, b, l.at, n)
    ensures ls.Arranged(b, owner)
    ensures Views(b, ls.journal) == if id in ls.journal then Views(a, ls.journal)[id := View(b, ls.journal[id])] else Views(a, ls.journal)
    ensures Views(b, ls.saved) == Views(a, ls.saved) && Views(b, ls.cached) == Views(a, ls.cached)
  {
    var l := ls.Current(id);
    OthersStay(ls, a, b, owner, id, n);
    if id in ls.journal {
      ViewsWith(a, b, ls.journal, id, l);
      assert ls.journal[id := l] == ls.journal;
    } else {
      assert ls.journal - {id} == ls.journal;
    }
  }

  /** A slice without the entries that pruning drops. */
  function PrunedSlice(cells: Memory, l: Slice, oldest: Option<nat>): (r: Slice)
    requires Fits(cells, l)
    ensures Fits(cells, r) && r.at == l.at && r.hi == l.hi
    ensures View(cells, r) == if oldest.None? then View(cells, l) else Pruned(View(cells, l), oldest.value)
  {
    if oldest.None? then l else Slice(l.at, l.hi - |Pruned(View(cells, l), oldest.value)|, l.hi)
  }

  /** A slice without the entries after version `v`. */
  function CutSlice(cells: Memory, l: Slice, v: nat): (r: Slice)
    requires Fits(cells, l)
    ensures Fits(cells, r) && r.at == l.at && r.hi <= l.hi && View(cells, r) == Truncated(View(cells, l), v)
  {
    Slice(l.at, l.lo, l.lo + |Truncated(View(cells, l), v)|)
  }

  /** Lists that are in order stay so when some are dropped, or when the journal is empty and a
      committed list ends earlier together with the cached one. */
  lemma FewerLists(ls: Lists, ls': Lists, cells: Memory, owner: map<nat, Key>)
    requires ls.Arranged(cells, owner)
    requires forall id :: id in ls'.saved ==> id in ls.saved && ls'.saved[id] == ls.saved[id]
    requires forall id :: id in ls'.journal ==> id in ls.journal && ls'.journal[id] == ls.journal[id]
    requires forall id :: id in ls'.cached ==> id in ls.cached && ls'.cached[id] == ls.cached[id]
    ensures ls'.Arranged(cells, owner)
  {
    forall id: Key {:trigger ls'.InLine(id)} ensures ls'.InLine(id) {
      assert ls.InLine(id);
    }
  }

  /** One committed list takes the place of another; if it is cached, it is cached again, or it is
      no shorter than before on its cells. */
  lemma OneReplaced(ls: Lists, cells: Memory, owner: map<nat, Key>, id: Key, l: Slice, cached: Slices)
    requires ls.Arranged(cells, owner) && id !in ls.journal && Fits(cells, l) && l.at in owner && owner[l.at] == id
    requires if id in ls.cached then cached == ls.cached[id := l] else cached == ls.cached
    ensures Lists(ls.saved[id := l], ls.journal, cached).Arranged(cells, owner)
  {
    var ls' := Lists(ls.saved[id := l], ls.journal, cached);
    forall k: Key {:trigger ls'.InLine(k)} ensures ls'.InLine(k) {
      assert ls.InLine(k);
    }
  }

  /** More memory, in which a list of its own is put. */
  lemma OneLoaded(ls: Lists, a: Memory, b: Memory, owner: map<nat, Key>, id: Key, at: nat, vs: seq<VersionInfo>, leaf: bool)
    requires ls.Arranged(a, owner) && at !in a && b == a[at := vs] && (leaf || id !in ls.journal)
    ensures var l := Slice(at, 0, |vs|);
      (if leaf then ls.(cached := ls.cached[id := l]) else ls.(saved := ls.saved[id := l])).Arranged(b, owner[at := id])
  {
    var l := Slice(at, 0, |vs|);
    var ls' := if leaf then ls.(cached := ls.cached[id := l]) else ls.(saved := ls.saved[id := l]);
    LoadedOwned(a, b, owner, id, at, vs, ls.saved);
    LoadedOwned(a, b, owner, id, at, vs, ls.journal);
    LoadedOwned(a, b, owner, id, at, vs, ls.cached);
    assert Owned(a, owner, ls.saved) && Owned(a, owner, ls.cached) && Owned(a, owner, ls.journal);
    hide Owned;
    forall k: Key {:trigger ls'.InLine(k)} ensures ls'.InLine(k) {
      assert ls.InLine(k);
    }
  }

  lemma LoadedOwned(a: Memory, b: Memory, owner: map<nat, Key>, id: Key, at: nat, vs: seq<VersionInfo>, ls: Slices)
    requires Owned(a, owner, ls) && at !in a && b == a[at := vs]
    ensures (forall k :: k in ls ==> ls[k].at != at) && Owned(b, owner[at := id], ls) && Owned(b, owner[at := id], ls[id := Slice(at, 0, |vs|)])
    ensures Views(b, ls) == Views(a, ls) && Views(b, ls[id := Slice(at, 0, |vs|)]) == Views(a, ls)[id := vs]
  {
    ViewsStay(a, b, at, 0, ls);
    ViewsStay(a, b, at, 0, ls - {id});
    ViewsWith(a, b, ls, id, Slice(at, 0, |vs|));
    assert vs[0..|vs|] == vs;
  }

  lemma ViewsPlus(cells: Memory, a: Slices, b: Slices)
    requires AllFit(cells, a) && AllFit(cells, b)
    ensures AllFit(cells, a + b) && Views(cells, a + b) == Views(cells, a) + Views(cells, b)
  {
    hide View;
  }

  /** The journal's lists, pruned, become the committed ones and, for leaves, the cached ones. */
  lemma AllCommitted(ls: Lists, cells: Memory, owner: map<nat, Key>, depth: nat, written: Slices, leaves: Slices)
    requires ls.Arranged(cells, owner) && written.Keys == ls.journal.Keys && AllFit(cells, written)
    requires forall id :: id in written ==> written[id].at == ls.journal[id].at
    requires leaves == map id | id in written && id.depth == depth :: written[id]
    requires forall id :: id in ls.cached ==> id.depth == depth
    ensures Lists(ls.saved + written, map[], ls.cached + leaves).Arranged(cells, owner)
  {
    var ls' := Lists(ls.saved + written, map[], ls.cached + leaves);
    forall k: Key {:trigger ls'.InLine(k)} ensures ls'.InLine(k) {
      assert ls.InLine(k);
    }
  }

  ghost function Leaves(views: map<Key, seq<VersionInfo>>, depth: nat): map<Key, seq<VersionInfo>> {
    map id | id in views && id.depth == depth :: views[id]
  }

  ghost function AllPruned(views: map<Key, seq<VersionInfo>>, oldest: Option<nat>): map<Key, seq<VersionInfo>> {
    map id | id in views :: if oldest.None? then views[id] else Pruned(views[id], oldest.value)
  }

  lemma LeafViews(cells: Memory, written: Slices, leaves: Slices, depth: nat)
    requires AllFit(cells, written) && leaves == map id | id in written && id.depth == depth :: written[id]
    ensures AllFit(cells, leaves) && Views(cells, leaves) == Leaves(Views(cells, written), depth)
  {
    hide View;
  }

  lemma LeavesPruned(views: map<Key, seq<VersionInfo>>, oldest: Option<nat>, depth: nat)
    ensures Leaves(AllPruned(views, oldest), depth) == AllPruned(Leaves(views, depth), oldest)
  {
    hide Pruned;
  }

  // ---- the operations of a tree ----

  class NodeLists {
    const maxDepth: nat
    var cells: Memory
    var next: nat  // addresses from here on are not in use
    var lists: Lists

    // The node that the cells at an address belong to.
    ghost var owner: map<nat, Key>

    ghost predicate Valid()
      reads this
    {
      && lists.Arranged(cells, owner) && (forall at :: at in cells ==> at < next)
      && forall id :: id in lists.cached ==> id.depth == maxDepth
    }

    ghost function Saved(): map<Key, seq<VersionInfo>>
      requires Valid()
      reads this
    {
      Views(cells, lists.saved)
    }

    ghost function Journal(): map<Key, seq<VersionInfo>>
      requires Valid()
      reads this
    {
      Views(cells, lists.journal)
    }

    ghost function Cached(): map<Key, seq<VersionInfo>>
      requires Valid()
      reads this
    {
      Views(cells, lists.cached)
    }

    /** The list a node shows at present. */
    ghost function Shown(id: Key): seq<VersionInfo>
      requires Valid() && (id in lists.journal || id in lists.saved)
      reads this
    {
      if id in lists.journal then Journal()[id] else Saved()[id]
    }

    constructor (maxDepth: nat)
      ensures Valid() && lists == Lists(map[], map[], map[])
    {
      this.maxDepth := maxDepth;
      cells, next, lists, owner := map[], 0, Lists(map[], map[], map[]), map[];
    }

    /** Publishes on a list: in place, in the next free cell, or in new cells, of which the
        runtime may add some as `spare`. */
    method PublishOn(l: Slice, v: VersionInfo, spare: seq<VersionInfo>) returns (l': Slice)
      requires Fits(cells, l) && forall at :: at in cells ==> at < next
      modifies `cells, `next
      ensures forall at :: at in cells ==> at < next
      ensures Fits(cells, l') && View(cells, l') == Publish(old(View(cells, l)), v)
      ensures Fits(cells, l) && View(cells, l) == Through(old(View(cells, l)), v)
      ensures if Overwrites(old(View(cells, l)), v) then l' == l && l.hi > 0 && SameBefore(old(cells), cells, l.at, l.hi - 1)
              else SameBefore(old(cells), cells, l.at, l.hi) && (if l'.at == l.at then l'.hi == l.hi + 1 else l'.at !in old(cells))
    {
      if l.hi > l.lo && cells[l.at][l.hi - 1].ver == v.ver {
        cells := cells[l.at := cells[l.at][l.hi - 1 := v]];
        l' := l;
      } else if l.hi < |cells[l.at]| {
        cells := cells[l.at := cells[l.at][l.hi := v]];
        l' := Slice(l.at, l.lo, l.hi + 1);
      } else {
        cells := cells[next := cells[l.at][l.lo..l.hi] + [v] + spare];
        l' := Slice(next, 0, l.hi - l.lo + 1);
        next := next + 1;
      }
    }

    /** Only an entry of the journal is overwritten. */
    lemma OnlyPending(id: Key, v: VersionInfo)
      requires Valid() && (id in lists.journal || id in lists.saved) && (id !in lists.journal ==> Latest(Saved()[id]) < v.ver)
      ensures var l := lists.Current(id);
        Fits(cells, l) && View(cells, l) == Shown(id) && (Overwrites(View(cells, l), v) ==> id in lists.journal && l.hi > 0)
    {
    }

    /** A change of a node: the list of its copy enters the journal. No other list in use changes. */
    method Change(id: Key, v: VersionInfo, spare: seq<VersionInfo>)
      requires Valid() && (id in lists.journal || id in lists.saved) && (id !in lists.journal ==> Latest(Saved()[id]) < v.ver)
      modifies this
      ensures Valid() && Journal() == old(Journal())[id := Publish(old(Shown(id)), v)]
      ensures Saved() == old(Saved()) && Cached() == old(Cached())
    {
      hide Views, View, SameBefore, Overwrites, Publish, Lists.Arranged, Through, Lists.Current;
      OnlyPending(id, v);
      var l := lists.Current(id);
      ghost var a, n := cells, if Overwrites(View(cells, l), v) then l.hi - 1 else l.hi;
      var l' := PublishOn(l, v, spare);
      JournalChanged(lists, a, cells, owner, id, n, l');
      lists := lists.(journal := lists.journal[id := l']);
      owner := owner[l'.at := id];
    }

    /** A copy of a node is published on and then dropped, as by a parallel set that is refused. */
    method Drop(id: Key, v: VersionInfo, spare: seq<VersionInfo>)
      requires Valid() && (id in lists.journal || id in lists.saved) && (id !in lists.journal ==> Latest(Saved()[id]) < v.ver)
      modifies this
      ensures Valid() && lists == old(lists) && Saved() == old(Saved()) && Cached() == old(Cached())
      ensures Journal() == if id in lists.journal then old(Journal())[id := Through(old(Journal())[id], v)] else old(Journal())
    {
      hide Views, View, SameBefore, Overwrites, Publish, Lists.Arranged, Through, Lists.Current;
      OnlyPending(id, v);
      var l := lists.Current(id);
      ghost var a, n := cells, if Overwrites(View(cells, l), v) then l.hi - 1 else l.hi;
      var l' := PublishOn(l, v, spare);
      CopyDropped(lists, a, cells, owner, id, n);
      IsCurrent(id);
    }

    lemma IsCurrent(id: Key)
      ensures id in lists.journal ==> lists.Current(id) == lists.journal[id]
    {
    }

    /** Everything pending is pruned and becomes committed; leaves enter the cache. */
    method Commit(oldest: Option<nat>)
      requires Valid()
      modifies `lists
      ensures Valid() && lists.journal == map[]
      ensures Saved() == old(Saved()) + AllPruned(old(Journal()), oldest)
      ensures Cached() == old(Cached()) + AllPruned(Leaves(old(Journal()), maxDepth), oldest)
    {
      var written := map id | id in lists.journal :: PrunedSlice(cells, lists.journal[id], oldest);
      var leaves := map id | id in written && id.depth == maxDepth :: written[id];
      AllCommitted(lists, cells, owner, maxDepth, written, leaves);
      WrittenViews(written, leaves, oldest);
      hide Lists.Arranged, PrunedSlice;
      lists := Lists(lists.saved + written, map[], lists.cached + leaves);
    }

    lemma WrittenViews(written: Slices, leaves: Slices, oldest: Option<nat>)
      requires Valid() && written == map id | id in lists.journal :: PrunedSlice(cells, lists.journal[id], oldest)
      requires leaves == map id | id in written && id.depth == maxDepth :: written[id]
      ensures AllFit(cells, lists.saved + written) && Views(cells, lists.saved + written) == Saved() + AllPruned(Journal(), oldest)
      ensures AllFit(cells, lists.cached + leaves)
      ensures Views(cells, lists.cached + leaves) == Cached() + AllPruned(Leaves(Journal(), maxDepth), oldest)
    {
      hide Lists.InLine, PrunedSlice, Pruned, Views, View;
      PrunedViews(written, oldest);
      ViewsPlus(cells, lists.saved, written);
      LeafViews(cells, written, leaves, maxDepth);
      LeavesPruned(Journal(), oldest, maxDepth);
      ViewsPlus(cells, lists.cached, leaves);
    }

    lemma PrunedViews(written: Slices, oldest: Option<nat>)
      requires Valid() && written == map id | id in lists.journal :: PrunedSlice(cells, lists.journal[id], oldest)
      ensures AllFit(cells, written) && Views(cells, written) == AllPruned(Journal(), oldest)
    {
      hide Lists.InLine, Pruned;
    }

    /** What is pending is dropped. */
    method Reset()
      requires Valid()
      modifies `lists
      ensures Valid() && lists.journal == map[] && Saved() == old(Saved()) && Cached() == old(Cached())
    {
      FewerLists(lists, lists.(journal := map[]), cells, owner);
      lists := lists.(journal := map[]);
    }

    lemma CutViews(id: Key, l: Slice, v: nat)
      requires Valid() && id in lists.saved && l == CutSlice(cells, lists.saved[id], v)
      ensures Fits(cells, l) && View(cells, l) == Truncated(Saved()[id], v)
      ensures AllFit(cells, lists.saved[id := l]) && Views(cells, lists.saved[id := l]) == Saved()[id := View(cells, l)]
      ensures AllFit(cells, lists.cached[id := l]) && Views(cells, lists.cached[id := l]) == Cached()[id := View(cells, l)]
    {
      WithOne(cells, lists.saved, id, l);
      WithOne(cells, lists.cached, id, l);
    }

    /** One node is taken back to version `v`; a cached leaf is cached again. */
    method TakeBack(id: Key, v: nat)
      requires Valid() && lists.journal == map[] && id in lists.saved
      modifies `lists
      ensures Valid() && lists.journal == map[] && Saved() == old(Saved())[id := Truncated(old(Saved())[id], v)]
      ensures Cached() == if id in lists.cached then old(Cached())[id := Truncated(old(Saved())[id], v)] else old(Cached())
    {
      hide Views, View;
      var l := CutSlice(cells, lists.saved[id], v);
      CutViews(id, l, v);
      OneReplaced(lists, cells, owner, id, l, if id in lists.cached then lists.cached[id := l] else lists.cached);
      hide Lists.Arranged, CutSlice;
      lists := Lists(lists.saved[id := l], map[], if id in lists.cached then lists.cached[id := l] else lists.cached);
    }

    /** A node is read from the store: its list is in cells of its own. */
    method Load(id: Key, vs: seq<VersionInfo>, leaf: bool)
      requires Valid() && (if leaf then id.depth == maxDepth else id !in lists.journal)
      modifies this
      ensures Valid() && Journal() == old(Journal())
      ensures Saved() == (if leaf then old(Saved()) else old(Saved())[id := vs])
      ensures Cached() == (if leaf then old(Cached())[id := vs] else old(Cached()))
    {
      hide Lists.Arranged, Views, View;
      var l := Slice(next, 0, |vs|);
      OneLoaded(lists, cells, cells[next := vs], owner, id, next, vs, leaf);
      Loaded(id, vs);
      cells := cells[next := vs];
      owner := owner[next := id];
      next := next + 1;
      lists := if leaf then lists.(cached := lists.cached[id := l]) else lists.(saved := lists.saved[id := l]);
    }

    lemma Loaded(id: Key, vs: seq<VersionInfo>)
      requires Valid()
      ensures next !in cells
      ensures var b, l := cells[next := vs], Slice(next, 0, |vs|);
        && AllFit(b, lists.saved) && Views(b, lists.saved) == Saved() && AllFit(b, lists.journal) && Views(b, lists.journal) == Journal()
        && AllFit(b, lists.cached) && Views(b, lists.cached) == Cached()
        && AllFit(b, lists.saved[id := l]) && Views(b, lists.saved[id := l]) == Saved()[id := vs]
        && AllFit(b, lists.cached[id := l]) && Views(b, lists.cached[id := l]) == Cached()[id := vs]
    {
      LoadedOwned(cells, cells[next := vs], owner, id, next, vs, lists.saved);
      LoadedOwned(cells, cells[next := vs], owner, id, next, vs, lists.journal);
      LoadedOwned(cells, cells[next := vs], owner, id, next, vs, lists.cached);
      hide Views, View, Lists.InLine;
    }

    /** The cache drops leaves. */
    method Evict(keep: set<Key>)
      requires Valid()
      modifies `lists
      ensures Valid() && Saved() == old(Saved()) && Journal() == old(Journal())
      ensures Cached() == map id | id in old(Cached()) && id in keep :: old(Cached())[id]
    {
      FewerLists(lists, lists.(cached := map id | id in lists.cached && id in keep :: lists.cached[id]), cells, owner);
      lists := lists.(cached := map id | id in lists.cached && id in keep :: lists.cached[id]);
    }
  }
}
