/** What a store must hold so that every snapshot of the window [floor, |hist|) can be read
    back from it, and why committing and rolling back keep it so. */
module History {
  import opened MerkleSpec
  import opened PackedNode
  import opened VersionList
  import opened Database

  /** hist[w] is the snapshot committed as version w. */
  type Hist = h: seq<LeafMap> | |h| >= 1 witness [map[]]

  function Newest(hist: Hist): LeafMap {
    hist[|hist| - 1]
  }

  /** The hash a node shows when its list is read at version `w`. */
  function Shows(env: Env, m: Table, key: Key, w: nat): Digest {
    HashAt(env, key.depth, VersionsAt(m, key), w)
  }

  /** Reading the list of `key` at version `w` gives the node's hash in snapshot `now`. */
  ghost predicate ReadsAs(env: Env, m: Table, now: LeafMap, key: Key, w: nat)
    requires KeyOK(env, key)
  {
    Shows(env, m, key, w) == KeyHash(env, key, now)
  }

  /** At version `w` no child was newer than the node. */
  ghost predicate ChildrenOlder(m: Table, key: Key, w: nat) {
    forall i :: 0 <= i < 16 ==> VerAt(VersionsAt(m, key.Child(i)), w) <= VerAt(VersionsAt(m, key), w)
  }

  /** The list can be read at `w`: in the window, or from its oldest entry on. */
  predicate Readable(floor: nat, vs: seq<VersionInfo>, w: nat) {
    floor <= w || (vs != [] && vs[0].ver <= w)
  }

  /** The whole tree can be read at `w` if the list of its root can. */
  predicate InReach(m: Table, floor: nat, w: nat) {
    Readable(floor, VersionsAt(m, ROOT_KEY), w)
  }

  ghost predicate ListOK(env: Env, m: Table, hist: Hist, floor: nat, key: Key)
    requires KeyOK(env, key)
  {
    var vs := VersionsAt(m, key);
    && Ascending(vs)
    && Latest(vs) < |hist|
    && (vs != [] ==> vs[0].ver >= 1)
    && (forall w: nat {:trigger ReadsAs(env, m, hist[w], key, w)} {:trigger hist[w]} ::
          w < |hist| && (Readable(floor, vs, w) || InReach(m, floor, w)) ==> ReadsAs(env, m, hist[w], key, w))
    && (Interior(env, key) ==> forall w: nat :: w < |hist| && InReach(m, floor, w) ==> ChildrenOlder(m, key, w))
  }

  /** The record of a node lists its children; of their lists only the newest entry is relied
      on. */
  ghost predicate RecordLinks(env: Env, m: Table, key: Key)
    requires KeyOK(env, key)
  {
    var r := RecAt(m, key);
    r.Some? ==>
      && r.value.path == key.path
      && |r.value.children| == 16 && |r.value.internals| == 14
      && (Interior(env, key) ==>
        forall i :: 0 <= i < 16 ==> LastEntry(Listed(r.value.children[i])) == LastEntry(VersionsAt(m, key.Child(i))))
      && (key.depth == env.maxDepth ==> forall i :: 0 <= i < 16 ==> Listed(r.value.children[i]) == [])
  }

  /** The record of a node describes the subtree of the snapshot `now`. */
  ghost predicate RecordOK(env: Env, m: Table, now: LeafMap, key: Key)
    requires KeyOK(env, key)
  {
    RecordLinks(env, m, key) &&
    (Interior(env, key) && RecAt(m, key).Some? ==> RecAt(m, key).value.internals == PackSpec(env, key, now))
  }

  ghost predicate DbOK(env: Env, m: Table, hist: Hist, floor: nat) {
    && (forall key {:trigger ListOK(env, m, hist, floor, key)} :: KeyOK(env, key) ==> ListOK(env, m, hist, floor, key))
    && (forall key {:trigger RecordOK(env, m, Newest(hist), key)} :: KeyOK(env, key) ==> RecordOK(env, m, Newest(hist), key))
  }

  /** Where the root's list can be read, every node reads right, and none was older than a
      child then. */
  lemma AllInReach(env: Env, m: Table, hist: Hist, floor: nat, key: Key, w: nat)
    requires DbOK(env, m, hist, floor) && w < |hist| && InReach(m, floor, w) && KeyOK(env, key)
    ensures ReadsAs(env, m, hist[w], key, w) && (Interior(env, key) ==> ChildrenOlder(m, key, w))
  {
    assert ListOK(env, m, hist, floor, key);
  }

  /** A node reads right exactly where its list can be read, or was empty. */
  lemma ReadsExactly(env: Env, m: Table, hist: Hist, floor: nat, key: Key, w: nat)
    requires DbOK(env, m, hist, floor) && w < |hist| && KeyOK(env, key)
    ensures ReadsAs(env, m, hist[w], key, w) <==>
      Readable(floor, VersionsAt(m, key), w) || KeyHash(env, key, hist[w]) == NilHash(env, key.depth)
  {
    assert ListOK(env, m, hist, floor, key);
    if Readable(floor, VersionsAt(m, key), w) {
      assert ReadsAs(env, m, hist[w], key, w);
    } else {
      var i := LookupFinds(VersionsAt(m, key), w);
    }
  }

  function Lower(floor: nat, v: nat): nat {
    if v < floor then v else floor
  }

  // ---- consequences ----

  lemma {:induction false} ChainVersions(env: Env, m: Table, hist: Hist, floor: nat, low: Key, top: Key, w: nat)
    requires DbOK(env, m, hist, floor) && w < |hist| && InReach(m, floor, w)
    requires KeyOK(env, low) && KeyOK(env, top) && Under(low, top)
    ensures VerAt(VersionsAt(m, low), w) <= VerAt(VersionsAt(m, top), w)
    decreases low.depth
  {
    if low != top {
      var up := Key(low.depth - 4, low.path / 16);
      assert up.Child(low.path % 16) == low;
      assert ListOK(env, m, hist, floor, up);
      assert ChildrenOlder(m, up, w);
      ChainVersions(env, m, hist, floor, up, top, w);
    }
  }

  lemma {:induction false} LookupStable(vs: seq<VersionInfo>, v: nat, w: nat)
    requires VerAt(vs, w) <= v <= w
    requires vs != [] ==> vs[0].ver >= 1
    ensures Lookup(vs, v) == Lookup(vs, w)
    decreases |vs|
  {
    if vs != [] && vs[|vs| - 1].ver > w {
      LookupStable(vs[..|vs| - 1], v, w);
    }
  }

  /** A node that had not changed between v and w stands for the same leaves at both. */
  lemma QuietSubtree(env: Env, m: Table, hist: Hist, floor: nat, top: Key, v: nat, w: nat, leaf: nat)
    requires DbOK(env, m, hist, floor) && v <= w < |hist| && InReach(m, floor, v)
    requires KeyOK(env, top) && VerAt(VersionsAt(m, top), w) <= v
    requires env.Valid() && PathAt(env, leaf, top.depth) == top.path
    ensures LeafHash(env, hist[v], leaf) == LeafHash(env, hist[w], leaf)
  {
    var low := LeafKey(env, leaf);
    LeafUnder(env, leaf, env.maxDepth, top);
    ChainVersions(env, m, hist, floor, low, top, w);
    AllInReach(env, m, hist, floor, low, v);
    AllInReach(env, m, hist, floor, low, w);
    assert ListOK(env, m, hist, floor, low);
    LookupStable(VersionsAt(m, low), v, w);
    assert KeyHash(env, low, hist[v]) == LeafHash(env, hist[v], leaf);
  }

  /** Two snapshots that agree on the leaves below a node give it the same hash and slots. */
  lemma SameBelow(env: Env, key: Key, a: LeafMap, b: LeafMap)
    requires KeyOK(env, key) && env.Valid()
    requires forall k: nat :: PathAt(env, k, key.depth) == key.path ==> LeafHash(env, a, k) == LeafHash(env, b, k)
    ensures KeyHash(env, key, a) == KeyHash(env, key, b)
    ensures Interior(env, key) ==> ChildSpec(env, key, a) == ChildSpec(env, key, b)
  {
    BinHashFrame(env, key.depth, key.path, a, b);
    if Interior(env, key) {
      forall i | 0 <= i < 16
        ensures KeyHash(env, key.Child(i), a) == KeyHash(env, key.Child(i), b)
      {
        forall k: nat | PathAt(env, k, key.depth + 4) == 16 * key.path + i
          ensures LeafHash(env, a, k) == LeafHash(env, b, k)
        {
          PathAtParent(env, k, key.depth);
        }
        BinHashFrame(env, key.depth + 4, 16 * key.path + i, a, b);
      }
      assert ChildSpec(env, key, a) == ChildSpec(env, key, b) by {
        forall i | 0 <= i < 16 ensures ChildSpec(env, key, a)[i] == ChildSpec(env, key, b)[i] {
          assert KeyHash(env, key.Child(i), a) == KeyHash(env, key.Child(i), b);
        }
      }
    }
  }

  /** A node without versions stands for an empty subtree. */
  lemma AbsentKey(env: Env, m: Table, hist: Hist, floor: nat, key: Key)
    requires DbOK(env, m, hist, floor) && floor < |hist|
    requires KeyOK(env, key) && env.Valid() && VersionsAt(m, key) == []
    ensures KeyHash(env, key, Newest(hist)) == NilHash(env, key.depth)
    ensures Interior(env, key) ==>
      PackSpec(env, key, Newest(hist)) == PackSpec(env, key, map[])
  {
    assert ListOK(env, m, hist, floor, key);
    var w := |hist| - 1;
    forall k: nat | PathAt(env, k, key.depth) == key.path
      ensures LeafHash(env, hist[w], k) == LeafHash(env, map[], k)
    {
      var low := LeafKey(env, k);
      LeafUnder(env, k, env.maxDepth, key);
      ChainVersions(env, m, hist, floor, low, key, w);
      assert ListOK(env, m, hist, floor, low);
      assert KeyHash(env, low, hist[w]) == LeafHash(env, hist[w], k);
      LookupLatest(VersionsAt(m, low), w);
    }
    SameBelow(env, key, hist[w], map[]);
  }

  lemma AbsentChild(env: Env, m: Table, hist: Hist, floor: nat, key: Key, i: nat)
    requires DbOK(env, m, hist, floor) && floor < |hist|
    requires Interior(env, key) && VersionsAt(m, key) == [] && i < 16
    ensures VersionsAt(m, key.Child(i)) == []
  {
    assert ListOK(env, m, hist, floor, key);
    assert ChildrenOlder(m, key, |hist| - 1);
    assert ListOK(env, m, hist, floor, key.Child(i));
    LookupLatest(VersionsAt(m, key.Child(i)), |hist| - 1);
  }

  /** The newest stored hash of a node is its hash in the newest snapshot. */
  lemma NewestHash(env: Env, m: Table, hist: Hist, floor: nat, key: Key)
    requires DbOK(env, m, hist, floor) && floor < |hist| && KeyOK(env, key)
    ensures match LastEntry(VersionsAt(m, key))
            case None => KeyHash(env, key, Newest(hist)) == NilHash(env, key.depth)
            case Some(v) => v.hash == KeyHash(env, key, Newest(hist)) && 1 <= v.ver < |hist|
  {
    assert ListOK(env, m, hist, floor, key);
    LookupLatest(VersionsAt(m, key), |hist| - 1);
  }

  // ---- an empty store ----

  lemma EmptyDb(env: Env, m: Table, hist: Hist)
    requires env.Valid() && forall key :: RecAt(m, key) == None
    requires forall w :: 0 <= w < |hist| ==> hist[w] == map[]
    ensures DbOK(env, m, hist, 0)
  {
    forall key | KeyOK(env, key)
      ensures ListOK(env, m, hist, 0, key) && RecordOK(env, m, Newest(hist), key)
    {
      BinHashEmpty(env, key.depth, key.path);
    }
  }

  // ---- commit ----

  ghost predicate ParentIn(env: Env, dirty: set<Key>, key: Key) {
    KeyOK(env, key) && if key.depth == 0 then key.path == 0 else Key(key.depth - 4, key.path / 16) in dirty
  }

  /** A set of nodes that with each node holds the nodes above it. */
  ghost predicate Closed(env: Env, dirty: set<Key>) {
    forall key {:trigger ParentIn(env, dirty, key)} :: key in dirty ==> ParentIn(env, dirty, key)
  }

  /** The snapshots differ at most in leaves whose nodes are dirty. */
  ghost predicate Agree(env: Env, dirty: set<Key>, a: LeafMap, b: LeafMap) {
    forall k: nat :: LeafKey(env, k) !in dirty ==> LeafHash(env, a, k) == LeafHash(env, b, k)
  }

  lemma {:induction false} ClosedUpwards(env: Env, dirty: set<Key>, low: Key, top: Key)
    requires Closed(env, dirty) && low in dirty && Under(low, top)
    ensures top in dirty
    decreases low.depth
  {
    if low != top {
      assert ParentIn(env, dirty, low);
      ClosedUpwards(env, dirty, Key(low.depth - 4, low.path / 16), top);
    }
  }

  lemma {:induction false} ClosedIsRooted(env: Env, dirty: set<Key>, key: Key)
    requires Closed(env, dirty) && key in dirty
    ensures Under(key, ROOT_KEY) && ROOT_KEY in dirty
    decreases key.depth
  {
    assert ParentIn(env, dirty, key);
    if key.depth > 0 {
      ClosedIsRooted(env, dirty, Key(key.depth - 4, key.path / 16));
      UnderDeeper(key, ROOT_KEY);
    }
  }

  lemma DirtyParent(env: Env, dirty: set<Key>, key: Key, i: nat)
    requires Closed(env, dirty) && i < 16
    ensures key.Child(i) in dirty ==> key in dirty
  {
    if key.Child(i) in dirty {
      assert ParentIn(env, dirty, key.Child(i));
    }
  }

  lemma CleanKey(env: Env, dirty: set<Key>, a: LeafMap, b: LeafMap, key: Key)
    requires env.Valid() && Closed(env, dirty) && Agree(env, dirty, a, b)
    requires KeyOK(env, key) && key !in dirty
    ensures KeyHash(env, key, a) == KeyHash(env, key, b)
    ensures Interior(env, key) ==> ChildSpec(env, key, a) == ChildSpec(env, key, b)
  {
    forall k: nat | PathAt(env, k, key.depth) == key.path
      ensures LeafHash(env, a, k) == LeafHash(env, b, k)
    {
      LeafUnder(env, k, env.maxDepth, key);
      if LeafKey(env, k) in dirty {
        ClosedUpwards(env, dirty, LeafKey(env, k), key);
      }
    }
    SameBelow(env, key, a, b);
  }

  function PruneTo(vs: seq<VersionInfo>, oldest: Option<nat>): seq<VersionInfo> {
    match oldest
    case None => vs
    case Some(o) => Pruned(vs, o)
  }

  /** The version list of a node while changes are pending for version `ver`. */
  function PendingList(env: Env, m: Table, dirty: set<Key>, now: LeafMap, ver: nat, key: Key): seq<VersionInfo>
    requires KeyOK(env, key)
  {
    if key in dirty then VersionsAt(m, key) + [VersionInfo(ver, KeyHash(env, key, now))]
    else VersionsAt(m, key)
  }

  /** The history up to version `last` once `now` has been committed for version `ver`: skipped
      versions repeat the snapshot before. */
  function Extend(hist: Hist, ver: nat, now: LeafMap, last: nat): Hist
    requires |hist| <= ver <= last + 1
  {
    hist + seq(ver - |hist|, _ => Newest(hist)) + seq(last + 1 - ver, _ => now)
  }

  function Raise(floor: nat, oldest: Option<nat>): nat {
    match oldest
    case None => floor
    case Some(o) => if o > floor then o else floor
  }

  ghost predicate WrittenOK(env: Env, m: Table, r: Record, dirty: set<Key>, now: LeafMap, ver: nat,
                            oldest: Option<nat>, key: Key)
    requires KeyOK(env, key)
  {
    && r.versions == PruneTo(PendingList(env, m, dirty, now, ver, key), oldest)
    && r.path == key.path
    && |r.children| == 16 && |r.internals| == 14
    && (Interior(env, key) ==>
      && r.internals == PackSpec(env, key, now)
      && forall i :: 0 <= i < 16 ==>
           LastEntry(Listed(r.children[i])) == LastEntry(PendingList(env, m, dirty, now, ver, key.Child(i))))
    && (key.depth == env.maxDepth ==> forall i :: 0 <= i < 16 ==> Listed(r.children[i]) == [])
  }

  ghost predicate KeyWritten(env: Env, m: Table, m': Table, dirty: set<Key>, now: LeafMap, ver: nat,
                             oldest: Option<nat>, key: Key)
    requires KeyOK(env, key)
  {
    if key in dirty
    then RecAt(m', key).Some? && WrittenOK(env, m, RecAt(m', key).value, dirty, now, ver, oldest, key)
    else RecAt(m', key) == RecAt(m, key)
  }

  /** m' is the store after the dirty nodes have been written, whatever the order was. */
  ghost predicate Written(env: Env, m: Table, m': Table, dirty: set<Key>, now: LeafMap, ver: nat, oldest: Option<nat>) {
    forall key {:trigger KeyWritten(env, m, m', dirty, now, ver, oldest, key)} :: KeyOK(env, key) ==>
      KeyWritten(env, m, m', dirty, now, ver, oldest, key)
  }

  /** The pending changes were made for version `ver`; the history will go up to `last`. */
  ghost predicate CommitPre(env: Env, m: Table, hist: Hist, floor: nat, dirty: set<Key>,
                            now: LeafMap, ver: nat, oldest: Option<nat>, last: nat) {
    && env.Valid() && DbOK(env, m, hist, floor) && floor < |hist| <= ver <= last + 1
    && Closed(env, dirty) && Agree(env, dirty, Newest(hist), now)
    && (oldest.Some? ==> oldest.value <= last) && (if dirty == {} then now == Newest(hist) else ver <= last)
  }

  lemma PruneToFacts(vs: seq<VersionInfo>, oldest: Option<nat>)
    requires Ascending(vs)
    ensures Ascending(PruneTo(vs, oldest)) && LastEntry(PruneTo(vs, oldest)) == LastEntry(vs)
    ensures Latest(PruneTo(vs, oldest)) == Latest(vs)
  {
    if oldest.Some? { PruneIsTight(vs, oldest.value); }
  }

  /** A list with one newer entry, pruned. */
  lemma ExtendedList(vs: seq<VersionInfo>, v: VersionInfo, oldest: Option<nat>)
    requires Ascending(vs) && Latest(vs) < v.ver && (vs != [] ==> vs[0].ver >= 1)
    ensures var p := PruneTo(vs + [v], oldest);
      && Ascending(p) && p != [] && p[0].ver >= 1 && LastEntry(p) == Some(v)
      && (if vs == [] then p[0] == v else p[0].ver >= vs[0].ver)
  {
    hide Pruned, Ascending;
    Appended(vs, v);
    PruneToFacts(vs + [v], oldest);
    FirstKept(vs + [v], oldest);
  }

  lemma Appended(vs: seq<VersionInfo>, v: VersionInfo)
    requires Ascending(vs) && Latest(vs) < v.ver && (vs != [] ==> vs[0].ver >= 1)
    ensures Ascending(vs + [v]) && LastEntry(vs + [v]) == Some(v)
    ensures forall i :: 0 <= i < |vs + [v]| ==> (vs + [v])[i].ver >= 1
  {
  }

  lemma FirstKept(vs: seq<VersionInfo>, oldest: Option<nat>)
    requires vs != [] && forall i :: 0 <= i < |vs| ==> vs[i].ver >= 1
    ensures PruneTo(vs, oldest) != [] && PruneTo(vs, oldest)[0].ver >= 1
    ensures Ascending(vs) ==> PruneTo(vs, oldest)[0].ver >= vs[0].ver
    ensures |vs| == 1 ==> PruneTo(vs, oldest) == vs
  {
    hide Pruned;
    var p := PruneTo(vs, oldest);
    assert p == vs[|vs| - |p|..];
    assert p[0] == vs[|vs| - |p|];
  }

  /** The version of the history before that a read at `w` goes to. */
  function Before(hist: Hist, w: nat): (r: nat)
    ensures r < |hist| && r <= w
  {
    if w < |hist| then w else |hist| - 1
  }

  lemma WrittenList(env: Env, m: Table, m': Table, dirty: set<Key>, now: LeafMap, ver: nat, oldest: Option<nat>, key: Key)
    requires Written(env, m, m', dirty, now, ver, oldest) && KeyOK(env, key)
    ensures VersionsAt(m', key) ==
      if key in dirty then PruneTo(VersionsAt(m, key) + [VersionInfo(ver, KeyHash(env, key, now))], oldest) else VersionsAt(m, key)
  {
    assert KeyWritten(env, m, m', dirty, now, ver, oldest, key);
  }

  /** Every list of the dirty nodes has the new entry and is pruned; the others are as before. */
  ghost predicate ListsWritten(env: Env, m: Table, m': Table, dirty: set<Key>, now: LeafMap, ver: nat, oldest: Option<nat>) {
    forall key {:trigger VersionsAt(m', key)} :: KeyOK(env, key) ==> (VersionsAt(m', key) ==
      if key in dirty then PruneTo(VersionsAt(m, key) + [VersionInfo(ver, KeyHash(env, key, now))], oldest) else VersionsAt(m, key))
  }

  lemma WrittenLists(env: Env, m: Table, m': Table, dirty: set<Key>, now: LeafMap, ver: nat, oldest: Option<nat>)
    requires Written(env, m, m', dirty, now, ver, oldest)
    ensures ListsWritten(env, m, m', dirty, now, ver, oldest)
  {
    hide Written, PruneTo;
    forall key | KeyOK(env, key)
      ensures VersionsAt(m', key) ==
        if key in dirty then PruneTo(VersionsAt(m, key) + [VersionInfo(ver, KeyHash(env, key, now))], oldest) else VersionsAt(m, key)
    {
      WrittenList(env, m, m', dirty, now, ver, oldest, key);
    }
  }

  /** The version does not matter if nothing is dirty. */
  lemma WrittenFor(env: Env, m: Table, m': Table, dirty: set<Key>, now: LeafMap, ver: nat, ver': nat, oldest: Option<nat>)
    requires ListsWritten(env, m, m', dirty, now, ver, oldest) && (dirty != {} ==> ver == ver')
    ensures ListsWritten(env, m, m', dirty, now, ver', oldest)
  {
  }

  /** What a pruned list still begins with it began with before; and where it begins at or before
      `w`, it has nothing between `w` and the oldest version. */
  lemma StillBegins(vs: seq<VersionInfo>, v: VersionInfo, oldest: nat, w: nat, o: nat)
    requires Ascending(vs + [v]) && w < v.ver && o <= oldest && w < oldest
    requires Pruned(vs + [v], oldest) != [] && Pruned(vs + [v], oldest)[0].ver <= w
    ensures vs != [] && vs[0].ver <= w && oldest < v.ver && VerAt(vs, o) <= w
  {
    hide Pruned, Lookup;
    var long := vs + [v];
    var k := PrunedShape(long, oldest);
    assert long[k..][0] == long[k] && long[|vs|] == v;
    assert k < |vs| && long[k] == vs[k] && long[0] == vs[0];
    var i := LookupFinds(vs, o);
    assert i >= 0 ==> long[i] == vs[i];
  }

  lemma RootBegins(env: Env, m: Table, hist: Hist, floor: nat, now: LeafMap, ver: nat, oldest: nat, w: nat)
    requires env.Valid() && DbOK(env, m, hist, floor) && |hist| <= ver && w < ver && w < oldest
    requires var long := VersionsAt(m, ROOT_KEY) + [VersionInfo(ver, KeyHash(env, ROOT_KEY, now))];
      Pruned(long, oldest) != [] && Pruned(long, oldest)[0].ver <= w
    ensures oldest < ver && InReach(m, floor, Before(hist, oldest)) && VerAt(VersionsAt(m, ROOT_KEY), Before(hist, oldest)) <= w
  {
    hide Pruned, Lookup, Ascending, ChildrenOlder, RecordOK, KeyHash;
    var vs := VersionsAt(m, ROOT_KEY);
    assert ListOK(env, m, hist, floor, ROOT_KEY);
    Appended(vs, VersionInfo(ver, KeyHash(env, ROOT_KEY, now)));
    StillBegins(vs, VersionInfo(ver, KeyHash(env, ROOT_KEY, now)), oldest, w, Before(hist, oldest));
    FirstIsOld(vs, |hist|);
  }

  /** Where the list of the root begins at or before `w`, no node has an entry between `w` and
      the oldest version: a node has none where the root has none. */
  lemma NothingBetween(env: Env, m: Table, m': Table, hist: Hist, floor: nat, dirty: set<Key>,
                       now: LeafMap, ver: nat, oldest: Option<nat>, last: nat, key: Key, w: nat)
    requires CommitPre(env, m, hist, floor, dirty, now, ver, oldest, last)
    requires Written(env, m, m', dirty, now, ver, oldest)
    requires KeyOK(env, key) && key in dirty && oldest.Some? && w < oldest.value && w < ver
    requires VersionsAt(m', ROOT_KEY) != [] && VersionsAt(m', ROOT_KEY)[0].ver <= w
    ensures var long := VersionsAt(m, key) + [VersionInfo(ver, KeyHash(env, key, now))];
      Lookup(long, w) == Lookup(long, oldest.value)
  {
    hide Pruned, Lookup, Written, Agree, RecordOK;
    var vs, o := VersionsAt(m, key), oldest.value;
    ClosedIsRooted(env, dirty, key);
    WrittenList(env, m, m', dirty, now, ver, oldest, ROOT_KEY);
    RootBegins(env, m, hist, floor, now, ver, o, w);
    ChainVersions(env, m, hist, floor, key, ROOT_KEY, Before(hist, o));
    assert ListOK(env, m, hist, floor, key);
    if o >= |hist| {
      LookupLatest(vs, o);
      LookupLatest(vs, |hist| - 1);
    }
    LookupStable(vs, w, o);
    LookupAppend(vs, VersionInfo(ver, KeyHash(env, key, now)), w);
    LookupAppend(vs, VersionInfo(ver, KeyHash(env, key, now)), o);
  }

  /** A written list answers like the list with the new entry that has not been pruned. */
  lemma PrunedAnswers(env: Env, m: Table, m': Table, hist: Hist, floor: nat, dirty: set<Key>,
                      now: LeafMap, ver: nat, oldest: Option<nat>, last: nat, key: Key, w: nat)
    requires CommitPre(env, m, hist, floor, dirty, now, ver, oldest, last)
    requires Written(env, m, m', dirty, now, ver, oldest)
    requires KeyOK(env, key) && key in dirty
    requires Readable(Raise(floor, oldest), VersionsAt(m', key), w) || InReach(m', Raise(floor, oldest), w)
    ensures Lookup(VersionsAt(m', key), w) == Lookup(VersionsAt(m, key) + [VersionInfo(ver, KeyHash(env, key, now))], w)
  {
    hide Pruned, Lookup, Written, Closed, Agree, RecordOK, ChildrenOlder;
    var vs, v := VersionsAt(m, key), VersionInfo(ver, KeyHash(env, key, now));
    assert ListOK(env, m, hist, floor, key);
    WrittenList(env, m, m', dirty, now, ver, oldest, key);
    Appended(vs, v);
    if oldest.Some? {
      if oldest.value <= w {
        PruneKeepsLookups(vs + [v], oldest.value, w);
      } else if Pruned(vs + [v], oldest.value) != [] && Pruned(vs + [v], oldest.value)[0].ver <= w {
        PruneKeepsFrom(vs + [v], oldest.value, w);
      } else {
        FirstEntry(vs, v, oldest.value, w);
        NothingBetween(env, m, m', hist, floor, dirty, now, ver, oldest, last, key, w);
        PruneKeepsExactly(vs + [v], oldest.value, w);
      }
    }
  }

  lemma FirstEntry(vs: seq<VersionInfo>, v: VersionInfo, oldest: nat, w: nat)
    requires Ascending(vs + [v]) && !(Pruned(vs + [v], oldest) != [] && Pruned(vs + [v], oldest)[0].ver <= w)
    ensures w < v.ver
  {
    hide Pruned;
    var p := PrunedShape(vs + [v], oldest);
    assert (vs + [v])[p..][0] == (vs + [v])[p] && (vs + [v])[|vs|] == v;
  }

  /** Lookups in the lists that a commit writes. */
  lemma CommittedLookup(env: Env, m: Table, m': Table, hist: Hist, floor: nat, dirty: set<Key>,
                        now: LeafMap, ver: nat, oldest: Option<nat>, last: nat, key: Key, w: nat)
    requires CommitPre(env, m, hist, floor, dirty, now, ver, oldest, last)
    requires Written(env, m, m', dirty, now, ver, oldest) && KeyOK(env, key)
    requires Readable(Raise(floor, oldest), VersionsAt(m', key), w) || InReach(m', Raise(floor, oldest), w)
    ensures Lookup(VersionsAt(m', key), w) ==
      (if key in dirty && w >= ver then Some(VersionInfo(ver, KeyHash(env, key, now)))
       else Lookup(VersionsAt(m, key), Before(hist, w)))
  {
    hide Closed, Agree, Lookup, Ascending, Written, PruneTo, RecordOK, ChildrenOlder;
    var vs := VersionsAt(m, key);
    assert ListOK(env, m, hist, floor, key);
    WrittenList(env, m, m', dirty, now, ver, oldest, key);
    LookupLatest(vs, |hist| - 1);
    if w >= |hist| { LookupLatest(vs, w); }
    if key in dirty {
      PrunedAnswers(env, m, m', hist, floor, dirty, now, ver, oldest, last, key, w);
      LookupAppend(vs, VersionInfo(ver, KeyHash(env, key, now)), w);
    }
  }

  /** The shape of the lists that a commit writes. */
  lemma CommittedShape(env: Env, m: Table, m': Table, hist: Hist, floor: nat, dirty: set<Key>,
                       now: LeafMap, ver: nat, oldest: Option<nat>, last: nat, key: Key)
    requires CommitPre(env, m, hist, floor, dirty, now, ver, oldest, last)
    requires Written(env, m, m', dirty, now, ver, oldest) && KeyOK(env, key)
    ensures Ascending(VersionsAt(m', key)) && Latest(VersionsAt(m', key)) <= last
    ensures VersionsAt(m', key) != [] ==> VersionsAt(m', key)[0].ver >= 1
    ensures LastEntry(VersionsAt(m', key)) == LastEntry(PendingList(env, m, dirty, now, ver, key))
  {
    hide Closed, Agree, Lookup, Ascending, Written, PruneTo, RecordOK, ChildrenOlder;
    assert ListOK(env, m, hist, floor, key);
    WrittenList(env, m, m', dirty, now, ver, oldest, key);
    if key in dirty {
      ExtendedList(VersionsAt(m, key), VersionInfo(ver, KeyHash(env, key, now)), oldest);
    }
  }

  /** Where a list can be read after a commit, it could be read before. */
  lemma ReadBefore(env: Env, m: Table, m': Table, hist: Hist, floor: nat, dirty: set<Key>,
                   now: LeafMap, ver: nat, oldest: Option<nat>, last: nat, key: Key, w: nat)
    requires CommitPre(env, m, hist, floor, dirty, now, ver, oldest, last)
    requires Written(env, m, m', dirty, now, ver, oldest) && KeyOK(env, key)
    requires Readable(Raise(floor, oldest), VersionsAt(m', key), w) && (key in dirty ==> w < ver)
    ensures Readable(floor, VersionsAt(m, key), Before(hist, w))
  {
    hide Closed, Agree, Lookup, Ascending, Written, PruneTo, RecordOK, ChildrenOlder;
    assert ListOK(env, m, hist, floor, key);
    WrittenList(env, m, m', dirty, now, ver, oldest, key);
    FirstIsOld(VersionsAt(m, key), |hist|);
    if key in dirty {
      ExtendedList(VersionsAt(m, key), VersionInfo(ver, KeyHash(env, key, now)), oldest);
    }
  }

  lemma FirstIsOld(vs: seq<VersionInfo>, n: nat)
    requires Ascending(vs) && Latest(vs) < n
    ensures vs != [] ==> vs[0].ver < n
  {
  }

  lemma ReachBefore(env: Env, m: Table, m': Table, hist: Hist, floor: nat, dirty: set<Key>,
                    now: LeafMap, ver: nat, oldest: Option<nat>, last: nat, w: nat)
    requires CommitPre(env, m, hist, floor, dirty, now, ver, oldest, last)
    requires Written(env, m, m', dirty, now, ver, oldest) && InReach(m', Raise(floor, oldest), w)
    ensures InReach(m, floor, Before(hist, w))
  {
    if w < ver {
      ReadBefore(env, m, m', hist, floor, dirty, now, ver, oldest, last, ROOT_KEY, w);
    }
  }

  /** Commit keeps the store readable at every version still offered. */
  lemma CommitKeepsDb(env: Env, m: Table, m': Table, hist: Hist, floor: nat, dirty: set<Key>,
                      now: LeafMap, ver: nat, oldest: Option<nat>, last: nat)
    requires CommitPre(env, m, hist, floor, dirty, now, ver, oldest, last)
    requires Written(env, m, m', dirty, now, ver, oldest)
    ensures DbOK(env, m', Extend(hist, ver, now, last), Raise(floor, oldest))
  {
    var hist' := Extend(hist, ver, now, last);
    forall key | KeyOK(env, key)
      ensures ListOK(env, m', hist', Raise(floor, oldest), key) && RecordOK(env, m', Newest(hist'), key)
    {
      CommitKeepsList(env, m, m', hist, floor, dirty, now, ver, oldest, last, key);
      CommitKeepsRecord(env, m, m', hist, floor, dirty, now, ver, oldest, last, key);
    }
  }
  lemma CommitKeepsList(env: Env, m: Table, m': Table, hist: Hist, floor: nat, dirty: set<Key>,
                        now: LeafMap, ver: nat, oldest: Option<nat>, last: nat, key: Key)
    requires CommitPre(env, m, hist, floor, dirty, now, ver, oldest, last)
    requires Written(env, m, m', dirty, now, ver, oldest) && KeyOK(env, key)
    ensures ListOK(env, m', Extend(hist, ver, now, last), Raise(floor, oldest), key)
  {
    hide DbOK, ListOK, Written, Closed, Agree, Lookup, PendingList, ReadsAs, ChildrenOlder, Readable, InReach, Ascending;
    var hist', low := Extend(hist, ver, now, last), Raise(floor, oldest);
    CommittedShape(env, m, m', hist, floor, dirty, now, ver, oldest, last, key);
    forall w: nat | w < |hist'| && (Readable(low, VersionsAt(m', key), w) || InReach(m', low, w))
      ensures ReadsAs(env, m', hist'[w], key, w)
    {
      CommitReads(env, m, m', hist, floor, dirty, now, ver, oldest, last, key, w);
    }
    if Interior(env, key) {
      forall w: nat | w < |hist'| && InReach(m', low, w) ensures ChildrenOlder(m', key, w) {
        CommitOrders(env, m, m', hist, floor, dirty, now, ver, oldest, last, key, w);
      }
    }
    ListFrom(env, m', hist', low, key);
  }

  lemma ListFrom(env: Env, m: Table, hist: Hist, floor: nat, key: Key)
    requires KeyOK(env, key) && Ascending(VersionsAt(m, key)) && Latest(VersionsAt(m, key)) < |hist|
    requires VersionsAt(m, key) != [] ==> VersionsAt(m, key)[0].ver >= 1
    requires forall w: nat :: w < |hist| && (Readable(floor, VersionsAt(m, key), w) || InReach(m, floor, w)) ==> ReadsAs(env, m, hist[w], key, w)
    requires Interior(env, key) ==> forall w: nat :: w < |hist| && InReach(m, floor, w) ==> ChildrenOlder(m, key, w)
    ensures ListOK(env, m, hist, floor, key)
  {
  }

  lemma CommitReads(env: Env, m: Table, m': Table, hist: Hist, floor: nat, dirty: set<Key>,
                    now: LeafMap, ver: nat, oldest: Option<nat>, last: nat, key: Key, w: nat)
    requires CommitPre(env, m, hist, floor, dirty, now, ver, oldest, last)
    requires Written(env, m, m', dirty, now, ver, oldest) && KeyOK(env, key) && w <= last
    requires Readable(Raise(floor, oldest), VersionsAt(m', key), w) || InReach(m', Raise(floor, oldest), w)
    ensures ReadsAs(env, m', Extend(hist, ver, now, last)[w], key, w)
  {
    hide Written, Closed, Agree, Lookup;
    var b := Before(hist, w);
    CommittedLookup(env, m, m', hist, floor, dirty, now, ver, oldest, last, key, w);
    if key !in dirty { CleanKey(env, dirty, Newest(hist), now, key); }
    if key !in dirty || w < ver {
      if InReach(m', Raise(floor, oldest), w) {
        ReachBefore(env, m, m', hist, floor, dirty, now, ver, oldest, last, w);
      } else {
        ReadBefore(env, m, m', hist, floor, dirty, now, ver, oldest, last, key, w);
      }
      assert ListOK(env, m, hist, floor, key) && ReadsAs(env, m, hist[b], key, b);
    }
  }

  lemma CommitOrders(env: Env, m: Table, m': Table, hist: Hist, floor: nat, dirty: set<Key>,
                     now: LeafMap, ver: nat, oldest: Option<nat>, last: nat, key: Key, w: nat)
    requires CommitPre(env, m, hist, floor, dirty, now, ver, oldest, last)
    requires Written(env, m, m', dirty, now, ver, oldest) && Interior(env, key) && w <= last
    requires InReach(m', Raise(floor, oldest), w)
    ensures ChildrenOlder(m', key, w)
  {
    hide Written, Closed, Agree, Lookup, ReadsAs, RecordOK;
    var b := Before(hist, w);
    ReachBefore(env, m, m', hist, floor, dirty, now, ver, oldest, last, w);
    AllInReach(env, m, hist, floor, key, b);
    CommittedLookup(env, m, m', hist, floor, dirty, now, ver, oldest, last, key, w);
    forall i | 0 <= i < 16
      ensures VerAt(VersionsAt(m', key.Child(i)), w) <= VerAt(VersionsAt(m', key), w)
    {
      CommittedLookup(env, m, m', hist, floor, dirty, now, ver, oldest, last, key.Child(i), w);
      DirtyParent(env, dirty, key, i);
      assert ListOK(env, m, hist, floor, key.Child(i));
      LookupVersion(VersionsAt(m, key.Child(i)), b);
    }
  }

  lemma LookupVersion(vs: seq<VersionInfo>, w: nat)
    ensures VerAt(vs, w) <= w
  {
    var i := LookupFinds(vs, w);
  }

  lemma CommittedNewest(env: Env, m: Table, m': Table, hist: Hist, floor: nat, dirty: set<Key>,
                        now: LeafMap, ver: nat, oldest: Option<nat>, last: nat, key: Key, i: nat)
    requires CommitPre(env, m, hist, floor, dirty, now, ver, oldest, last)
    requires Written(env, m, m', dirty, now, ver, oldest) && Interior(env, key) && i < 16
    ensures LastEntry(VersionsAt(m', key.Child(i))) == LastEntry(PendingList(env, m, dirty, now, ver, key.Child(i)))
    ensures key !in dirty ==> key.Child(i) !in dirty
  {
    CommittedShape(env, m, m', hist, floor, dirty, now, ver, oldest, last, key.Child(i));
    DirtyParent(env, dirty, key, i);
  }

  lemma CommitKeepsRecord(env: Env, m: Table, m': Table, hist: Hist, floor: nat, dirty: set<Key>,
                          now: LeafMap, ver: nat, oldest: Option<nat>, last: nat, key: Key)
    requires CommitPre(env, m, hist, floor, dirty, now, ver, oldest, last)
    requires Written(env, m, m', dirty, now, ver, oldest) && KeyOK(env, key)
    ensures RecordOK(env, m', now, key)
  {
    if Interior(env, key) {
      forall i | 0 <= i < 16
        ensures LastEntry(VersionsAt(m', key.Child(i))) == LastEntry(PendingList(env, m, dirty, now, ver, key.Child(i)))
        ensures key !in dirty ==> key.Child(i) !in dirty
      {
        CommittedNewest(env, m, m', hist, floor, dirty, now, ver, oldest, last, key, i);
      }
    }
    assert KeyWritten(env, m, m', dirty, now, ver, oldest, key);
    if key in dirty {
      DirtyRecord(env, m, m', dirty, now, ver, oldest, key);
    } else {
      assert RecordOK(env, m, Newest(hist), key);
      CleanKey(env, dirty, Newest(hist), now, key);
      CleanRecord(env, m, m', Newest(hist), now, key);
    }
  }

  lemma DirtyRecord(env: Env, m: Table, m': Table, dirty: set<Key>, now: LeafMap, ver: nat, oldest: Option<nat>, key: Key)
    requires KeyOK(env, key) && key in dirty
    requires KeyWritten(env, m, m', dirty, now, ver, oldest, key)
    requires Interior(env, key) ==> forall i :: 0 <= i < 16 ==>
      LastEntry(VersionsAt(m', key.Child(i))) == LastEntry(PendingList(env, m, dirty, now, ver, key.Child(i)))
    ensures RecordOK(env, m', now, key)
  {
  }

  lemma CleanRecord(env: Env, m: Table, m': Table, was: LeafMap, now: LeafMap, key: Key)
    requires KeyOK(env, key) && RecAt(m', key) == RecAt(m, key) && RecordOK(env, m, was, key)
    requires Interior(env, key) ==> ChildSpec(env, key, was) == ChildSpec(env, key, now)
    requires Interior(env, key) ==> forall i :: 0 <= i < 16 ==>
      LastEntry(VersionsAt(m', key.Child(i))) == LastEntry(VersionsAt(m, key.Child(i)))
    ensures RecordOK(env, m', now, key)
  {
  }

  // ---- rollback ----

  /** m' is the store after every node has been taken back to version `v`. */
  ghost predicate TakenBack(env: Env, m: Table, m': Table, now: LeafMap, v: nat) {
    forall key {:trigger VersionsAt(m', key)} {:trigger RecordOK(env, m', now, key)} :: KeyOK(env, key) ==>
      VersionsAt(m', key) == Truncated(VersionsAt(m, key), v) && RecordOK(env, m', now, key)
  }

  /** Rollback keeps the store readable at every version up to the target. */
  lemma RollbackKeepsDb(env: Env, m: Table, m': Table, hist: Hist, floor: nat, v: nat)
    requires env.Valid() && DbOK(env, m, hist, floor) && v < |hist| && InReach(m, floor, v)
    requires TakenBack(env, m, m', hist[v], v)
    ensures DbOK(env, m', hist[..v + 1], Lower(floor, v))
  {
    forall key | KeyOK(env, key)
      ensures ListOK(env, m', hist[..v + 1], Lower(floor, v), key)
    {
      RollbackKeepsList(env, m, m', hist, floor, v, key);
    }
  }

  lemma TruncatedFacts(vs: seq<VersionInfo>, v: nat)
    ensures |Truncated(vs, v)| <= |vs| && Truncated(vs, v) == vs[..|Truncated(vs, v)|] && Latest(Truncated(vs, v)) <= v
  {
  }

  lemma RollbackKeepsList(env: Env, m: Table, m': Table, hist: Hist, floor: nat, v: nat, key: Key)
    requires env.Valid() && DbOK(env, m, hist, floor) && v < |hist| && InReach(m, floor, v)
    requires TakenBack(env, m, m', hist[v], v) && KeyOK(env, key)
    ensures ListOK(env, m', hist[..v + 1], Lower(floor, v), key)
  {
    hide RecordOK, Lookup, Truncated, KeyHash;
    var hist' := hist[..v + 1];
    var vs := VersionsAt(m, key);
    assert ListOK(env, m, hist, floor, key);
    TruncatedFacts(vs, v);
    TruncatedFacts(VersionsAt(m, ROOT_KEY), v);
    assert VersionsAt(m', key) == Truncated(vs, v) && VersionsAt(m', ROOT_KEY) == Truncated(VersionsAt(m, ROOT_KEY), v);
    TruncateShape(vs, v);
    forall w: nat | w < |hist'| && (Readable(Lower(floor, v), VersionsAt(m', key), w) || InReach(m', Lower(floor, v), w))
      ensures ReadsAs(env, m', hist'[w], key, w)
    {
      TruncateKeepsLookups(vs, v, w);
      assert ReadsAs(env, m, hist[w], key, w);
    }
    if Interior(env, key) {
      forall w: nat | w < |hist'| && InReach(m', Lower(floor, v), w)
        ensures ChildrenOlder(m', key, w)
      {
        assert InReach(m, floor, w) && ChildrenOlder(m, key, w);
        TruncateKeepsLookups(vs, v, w);
        forall i | 0 <= i < 16
          ensures VerAt(VersionsAt(m', key.Child(i)), w) <= VerAt(VersionsAt(m', key), w)
        {
          assert VersionsAt(m', key.Child(i)) == Truncated(VersionsAt(m, key.Child(i)), v);
          TruncateKeepsLookups(VersionsAt(m, key.Child(i)), v, w);
        }
      }
    }
  }

  // ---- how exact that is ----

  /** What the slots of a node are when its children's lists are read at `w`. */
  function ShownPack(env: Env, m: Table, key: Key, w: nat): (r: seq<Option<Digest>>)
    ensures |r| == 14
  {
    Pack(env.hash, seq(16, i requires 0 <= i < 16 => Shows(env, m, key.Child(i), w)))
  }

  /** In reach those are the slots of the snapshot. */
  lemma ShownIsPacked(env: Env, m: Table, hist: Hist, floor: nat, key: Key, w: nat)
    requires DbOK(env, m, hist, floor) && w < |hist| && InReach(m, floor, w) && Interior(env, key)
    ensures ShownPack(env, m, key, w) == PackSpec(env, key, hist[w])
  {
    var shown := seq(16, i requires 0 <= i < 16 => Shows(env, m, key.Child(i), w));
    forall i | 0 <= i < 16 ensures shown[i] == ChildSpec(env, key, hist[w])[i] {
      AllInReach(env, m, hist, floor, key.Child(i), w);
    }
    assert shown == ChildSpec(env, key, hist[w]);
  }
}
