/** Setting many leaves: what the items mean together, and how far their ways down have come. */
module MultiSetPlacing {
  import opened MerkleSpec
  import opened PackedNode
  import opened MultiSetProtocol
  import opened MultiSetWork
  import opened NodeState
  import opened TreeNodes
  import opened MultiSetWorkers
  import opened PendingUpdate
  import opened Proofs
  import opened StaleSibling

  datatype Item = Item(key: nat, val: Digest)

  /** What the scheduler decides in a parallel set: whether the items under way still follow
      when a key is refused, in which order the workers are started, and who moves first. */
  datatype Choice = Choice(follow: bool, order: seq<nat>, plan: seq<nat>)

  /** How far one item has come on its way down: the node it is at. */
  datatype Walk = Walk(val: Digest, target: TreeNode, depth: nat)

  /** Setting the items one after the other. */
  function SetAll(m: LeafMap, items: seq<Item>): LeafMap
    decreases |items|
  {
    if items == [] then m else SetAll(m[items[0].key := items[0].val], items[1..])
  }

  ghost predicate Distinct(items: seq<Item>) {
    forall i, j :: 0 <= i < j < |items| ==> items[i].key != items[j].key
  }

  predicate AllInRange(env: Env, items: seq<Item>) {
    forall i :: 0 <= i < |items| ==> items[i].key < Pow2(env.maxDepth)
  }

  /** How many items come before the first one whose key is out of range. */
  function Accepted(env: Env, items: seq<Item>): (n: nat)
    ensures n <= |items| && forall i :: 0 <= i < n ==> items[i].key < Pow2(env.maxDepth)
    ensures n < |items| ==> items[n].key >= Pow2(env.maxDepth)
    ensures n == |items| <==> AllInRange(env, items)
  {
    if items == [] || items[0].key >= Pow2(env.maxDepth) then 0 else 1 + Accepted(env, items[1..])
  }

  lemma AcceptedIs(env: Env, items: seq<Item>, n: nat)
    requires n <= |items| && forall i :: 0 <= i < n ==> items[i].key < Pow2(env.maxDepth)
    requires n < |items| ==> items[n].key >= Pow2(env.maxDepth)
    ensures n == Accepted(env, items)
  {
    var m := Accepted(env, items);
  }

  lemma NoItems(env: Env, items: seq<Item>)
    ensures items == [] ==> AllInRange(env, items)
  {
  }

  function KeysOf(items: seq<Item>, n: nat): set<nat>
    requires n <= |items|
  {
    set i | 0 <= i < n :: items[i].key
  }

  /** The nodes on the ways to the keys. */
  function WayKeys(env: Env, keys: set<nat>): set<Key> {
    set k, id | k in keys && id in PathKeys(env, k) :: id
  }

  lemma WayKeysAre(env: Env, keys: set<nat>, id: Key)
    requires env.Valid()
    ensures id in WayKeys(env, keys) <==> KeyOK(env, id) && exists k :: k in keys && PathAt(env, k, id.depth) == id.path
  {
    hide PathKeys, PathAt;
    if id in WayKeys(env, keys) {
      var k :| k in keys && id in PathKeys(env, k);
      PathKeysAre(env, k, id);
    }
    if KeyOK(env, id) {
      if k :| k in keys && PathAt(env, k, id.depth) == id.path {
        PathKeysAre(env, k, id);
      }
    }
  }

  lemma NoWays(env: Env, items: seq<Item>)
    ensures items == [] ==> WayKeys(env, SetAll(map[], items).Keys) == {}
  {
  }

  lemma NoKeys(items: seq<Item>)
    ensures KeysOf(items, 0) == {}
  {
  }

  lemma NextKey(items: seq<Item>, n: nat)
    requires Distinct(items) && n < |items|
    ensures items[n].key !in KeysOf(items, n) && KeysOf(items, n + 1) == KeysOf(items, n) + {items[n].key}
    ensures items[n].key in SetAll(map[], items) && SetAll(map[], items)[items[n].key] == items[n].val
  {
    SetAllHas(map[], items, n);
  }

  lemma AllKeys(items: seq<Item>)
    ensures KeysOf(items, |items|) == SetAll(map[], items).Keys
  {
    SetAllMerges(map[], items);
  }

  lemma {:induction false} SetAllMerges(m: LeafMap, items: seq<Item>)
    ensures SetAll(m, items) == m + SetAll(map[], items)
    ensures forall k :: k in SetAll(map[], items) <==> exists i :: 0 <= i < |items| && items[i].key == k
    decreases |items|
  {
    if items != [] {
      var one: LeafMap := map[items[0].key := items[0].val];
      SetAllMerges(m[items[0].key := items[0].val], items[1..]);
      SetAllMerges(one, items[1..]);
      assert map[][items[0].key := items[0].val] == one;
      forall k ensures k in SetAll(map[], items) <==> exists i :: 0 <= i < |items| && items[i].key == k {
        if i :| 0 <= i < |items| && items[i].key == k {
          assert i > 0 ==> items[1..][i - 1].key == k;
        }
        if k in SetAll(map[], items[1..]) {
          var i :| 0 <= i < |items[1..]| && items[1..][i].key == k;
          assert items[i + 1].key == k;
        }
      }
    }
  }

  lemma {:induction false} SetAllHas(m: LeafMap, items: seq<Item>, i: nat)
    requires Distinct(items) && i < |items|
    ensures items[i].key in SetAll(m, items) && SetAll(m, items)[items[i].key] == items[i].val
    decreases |items|
  {
    var m' := m[items[0].key := items[0].val];
    if i > 0 {
      SetAllHas(m', items[1..], i - 1);
    } else {
      SetAllMerges(m', items[1..]);
    }
  }

  /** With distinct keys the order of the items does not matter. */
  lemma OrderIsIrrelevant(m: LeafMap, a: seq<Item>, b: seq<Item>)
    requires Distinct(a) && Distinct(b) && forall x :: x in a <==> x in b
    ensures SetAll(m, a) == SetAll(m, b)
  {
    SetAllMerges(m, a);
    SetAllMerges(m, b);
    forall k ensures k in SetAll(map[], a) <==> k in SetAll(map[], b) {
      if i :| 0 <= i < |a| && a[i].key == k { assert a[i] in b; }
      if i :| 0 <= i < |b| && b[i].key == k { assert b[i] in a; }
    }
    forall k | k in SetAll(map[], a) ensures SetAll(map[], a)[k] == SetAll(map[], b)[k] {
      var i :| 0 <= i < |a| && a[i].key == k;
      assert a[i] in b;
      var h :| 0 <= h < |b| && b[h] == a[i];
      SetAllHas(map[], a, i);
      SetAllHas(map[], b, h);
    }
  }

  /** What the workers have to compute: `was` is pending, the nodes `dirty` are in the journal. */
  ghost function JobFor(env: Env, was: LeafMap, dirty: set<Key>, items: seq<Item>): Job {
    Job(env, was, SetAll(was, items), SetAll(map[], items).Keys, Stamped(env, dirty, was))
  }

  lemma JobIsValid(env: Env, was: LeafMap, dirty: set<Key>, items: seq<Item>)
    requires env.Valid() && items != [] && AllInRange(env, items)
    ensures JobFor(env, was, dirty, items).Valid() && OldStamps(JobFor(env, was, dirty, items))
  {
    hide PathAt, Pow2;
    SetAllMerges(was, items);
    SetAllMerges(map[], items);
    assert items[0].key in SetAll(map[], items);
    forall k | k in SetAll(map[], items) ensures PathAt(env, k, 0) == 0 {
      ValidLeafHasRoot(env, k, 0);
      RootPath(env, k);
    }
  }

  lemma RootPath(env: Env, k: nat)
    ensures PathAt(env, k, 0) < Pow2(0) <==> PathAt(env, k, 0) == 0
  {
  }

  /** With nothing pending no node carries the pending version yet, and no leaf can be changed
      by an item that is left where it is. */
  lemma NothingStamped(env: Env, was: LeafMap, items: seq<Item>, placed: set<nat>)
    ensures JobFor(env, was, {}, items).NoStaleSibling() && Undisturbed(env, was, {}, items, placed)
  {
  }

  /** A stale sibling: while a value of `k` is pending, `k` is set to another one together with a
      key below the node beside that of `k`, four levels below the root. */
  lemma StaleItems(env: Env, was: LeafMap, dirty: set<Key>, k: nat, k2: nat, b: Digest, c: Digest)
    requires env.Valid() && env.maxDepth >= 8 && Injective(env) && k < Pow2(env.maxDepth) && k2 < Pow2(env.maxDepth)
    requires PathKeys(env, k) <= dirty && b != LeafHash(env, was, k) && PathAt(env, k2, 4) == Xor1(PathAt(env, k, 4))
    ensures var items := [Item(k, b), Item(k2, c)];
      Distinct(items) && AllInRange(env, items) && !JobFor(env, was, dirty, items).NoStaleSibling()
  {
    hide PathAt, Pow2, PathKeys, Injective;
    var items := [Item(k, b), Item(k2, c)];
    var j := JobFor(env, was, dirty, items);
    var id := PathKey(env, k, 4);
    assert Distinct(items) && items[0].key == k && items[1].key == k2;
    PathKeysAre(env, k, id);
    SetAllHas(was, items, 0);
    SetAllMerges(map[], items);
    assert k in j.keys && k2 in j.keys && j.Marked(At(id)) && j.Marked(At(id).Sibling());
    if j.stamped[At(id)] == j.Goal(At(id)) {
      HashFixesLeaves(env, 4, id.path, was, j.now, k);
    }
  }

  /** The keys of the items before the first one whose key is out of range. */
  function Submitted(env: Env, items: seq<Item>): set<nat> {
    KeysOf(items, Accepted(env, items))
  }

  /** None of the items `placed` would change a leaf that is pending. */
  ghost predicate Undisturbed(env: Env, was: LeafMap, dirty: set<Key>, items: seq<Item>, placed: set<nat>) {
    var vals := SetAll(map[], items);
    forall k :: k in placed && k in vals && LeafKey(env, k) in dirty ==> vals[k] == LeafHash(env, was, k)
  }

  /** A key out of range after an item that changes a pending leaf: setting `k` to `b` while
      another value is pending for it, followed by an item that is refused. */
  lemma DisturbingItems(env: Env, was: LeafMap, dirty: set<Key>, k: nat, b: Digest, bad: Item)
    requires k < Pow2(env.maxDepth) <= bad.key && LeafKey(env, k) in dirty && b != LeafHash(env, was, k)
    ensures var items := [Item(k, b), bad];
      && Distinct(items) && !AllInRange(env, items) && Submitted(env, items) == {k}
      && !Undisturbed(env, was, dirty, items, Submitted(env, items))
  {
    var items := [Item(k, b), bad];
    AcceptedIs(env, items, 1);
    SetAllHas(map[], items, 0);
    assert items[0].key == k;
  }

  // ---- how far each key has come ----

  /** The places on the ways down, each followed for as many levels as `prog` says. */
  ghost function MarksBy(env: Env, prog: map<nat, nat>): iset<Pos> {
    iset p: Pos | exists k :: k in prog && p.level < prog[k] && PathAt(env, k, p.level) == p.path
  }

  /** The keys whose leaves have been reached. */
  ghost function Reached(env: Env, prog: map<nat, nat>): set<nat> {
    set k | k in prog && prog[k] > env.maxDepth
  }

  ghost function FilledBy(env: Env, vals: map<nat, Digest>, prog: map<nat, nat>): map<Pos, Digest> {
    map k | k in Reached(env, prog) && k in vals :: Pos(env.maxDepth, k) := vals[k]
  }

  /** What is still to be done on the ways down. */
  ghost function Unplaced(env: Env, vals: map<nat, Digest>, prog: map<nat, nat>): set<(nat, nat)> {
    set k, d | k in vals.Keys && 0 <= d <= env.maxDepth && (k !in prog || d >= prog[k]) :: (k, d)
  }

  /** The slots above a child are those on the way to it. */
  lemma OnWayDown(env: Env, k: nat, d: nat, i: nat)
    requires d + 4 <= env.maxDepth && i < 14
    ensures OnPath(PathAt(env, k, d + 4) % 16, i) <==> SlotPath(PathAt(env, k, d), i) == PathAt(env, k, d + SlotLevel(i))
  {
    PathAtParent(env, k, d);
    var q := PathAt(env, k, d + 4);
    assert PathAt(env, k, d + 3) == q / 2;
    assert PathAt(env, k, d + 2) == q / 2 / 2;
    assert PathAt(env, k, d + 1) == q / 2 / 2 / 2;
    OnPathIsAncestor(q % 16, i, q / 16);
  }

  /** The slot of a node at a place on the way. */
  lemma SlotOnWay(env: Env, k: nat, d: nat, l: nat) returns (i: nat)
    requires d + 4 <= env.maxDepth && 1 <= l <= 3
    ensures i < 14 && SlotLevel(i) == l && SlotPath(PathAt(env, k, d), i) == PathAt(env, k, d + l)
  {
    var nibble := PathAt(env, k, d + 4) % 16;
    i := if l == 1 then nibble / 8 else if l == 2 then 2 + nibble / 4 else 6 + nibble / 2;
    OnWayDown(env, k, d, i);
  }

  lemma MarksStep(env: Env, prog: map<nat, nat>, k: nat, d: nat)
    requires k in prog && prog[k] == d && d + 4 <= env.maxDepth
    ensures MarksBy(env, prog[k := d + 4])
         == MarksBy(env, prog) + iset{At(PathKey(env, k, d))} + SlotsAbove(PathKey(env, k, d), PathAt(env, k, d + 4) % 16)
  {
    var nibble, id := PathAt(env, k, d + 4) % 16, PathKey(env, k, d);
    var was, now := MarksBy(env, prog), MarksBy(env, prog[k := d + 4]);
    forall p ensures p in now <==> p in was + iset{At(id)} + SlotsAbove(id, nibble) {
      if p in now {
        var h :| h in prog && p.level < prog[k := d + 4][h] && PathAt(env, h, p.level) == p.path;
        if h == k && p.level > d {
          var i := SlotOnWay(env, k, d, p.level - d);
          OnWayDown(env, k, d, i);
          assert p == SlotAt(id, i);
        } else if h == k && p.level < d {
          assert p in was;
        }
      }
      if p in SlotsAbove(id, nibble) {
        var i :| 0 <= i < 14 && OnPath(nibble, i) && p == SlotAt(id, i);
        OnWayDown(env, k, d, i);
        assert p.level < prog[k := d + 4][k] && PathAt(env, k, p.level) == p.path;
      }
      if p in was {
        var h :| h in prog && p.level < prog[h] && PathAt(env, h, p.level) == p.path;
        assert p.level < prog[k := d + 4][h];
      }
      if p == At(id) {
        assert p.level < prog[k := d + 4][k] && PathAt(env, k, p.level) == p.path;
      }
    }
  }

  lemma LeafStep(env: Env, vals: map<nat, Digest>, prog: map<nat, nat>, k: nat)
    requires k in prog && k in vals && prog[k] == env.maxDepth
    ensures var prog', leaf := prog[k := env.maxDepth + 1], Pos(env.maxDepth, k);
      MarksBy(env, prog') == MarksBy(env, prog) + iset{leaf}
  {
    var prog', leaf := prog[k := env.maxDepth + 1], Pos(env.maxDepth, k);
    forall p ensures p in MarksBy(env, prog') <==> p in MarksBy(env, prog) + iset{leaf} {
      if p in MarksBy(env, prog') {
        var h :| h in prog' && p.level < prog'[h] && PathAt(env, h, p.level) == p.path;
        assert p.level < prog[h] || p == leaf;
      }
      if p in MarksBy(env, prog) {
        var h :| h in prog && p.level < prog[h] && PathAt(env, h, p.level) == p.path;
        assert p.level < prog'[h];
      }
      if p == leaf {
        assert p.level < prog'[k] && PathAt(env, k, p.level) == p.path;
      }
    }
  }

  lemma LeafReached(env: Env, vals: map<nat, Digest>, prog: map<nat, nat>, k: nat)
    requires k in prog && k in vals && prog[k] == env.maxDepth
    ensures FilledBy(env, vals, prog[k := env.maxDepth + 1]) == FilledBy(env, vals, prog)[Pos(env.maxDepth, k) := vals[k]]
    ensures Pos(env.maxDepth, k) !in FilledBy(env, vals, prog)
  {
  }

  // ---- the ways down, all at once ----

  ghost predicate WalkOK(s: TreeState, val: Digest, d: nat, k: nat, walk: Walk)
    reads walk.target`temporary
  {
    && walk.val == val && walk.depth == d && d % 4 == 0 && d <= s.env.maxDepth
    && s.Live(walk.target) && !walk.target.temporary && walk.target.Id() == PathKey(s.env, k, d)
  }

  /** The copies and the emptied slots are exactly those on the ways so far. */
  ghost predicate Traced(w: Work, vals: map<nat, Digest>, prog: map<nat, nat>) {
    && w.marks == MarksBy(w.s.env, prog) && w.filled == FilledBy(w.s.env, vals, prog)
  }

  /** Some items are on their way down, others have their leaves in place. */
  ghost predicate Walking(s: TreeState, tmp: Journal, vals: map<nat, Digest>, prog: map<nat, nat>,
                          running: map<nat, Walk>, leaves: map<nat, TreeNode>)
    reads s.saved`temporary, s.journal.Values`temporary
  {
    && prog.Keys <= vals.Keys && running.Keys !! leaves.Keys && prog.Keys == running.Keys + leaves.Keys
    && (forall k :: k in running ==> running[k].target in s.saved + s.journal.Values && WalkOK(s, vals[k], prog[k], k, running[k]))
    && (forall k :: k in leaves ==> prog[k] == s.env.maxDepth + 1 && Copied(tmp, leaves[k]) && leaves[k].Id() == LeafKey(s.env, k))
    && forall k :: k in prog ==> k < Pow2(s.env.maxDepth)
  }

  /** What one item finds when it takes its next step. */
  ghost predicate OnTheWay(w: Work, target: TreeNode)
    reads target
  {
    && w.s.Live(target) && !target.temporary && KeyOK(w.s.env, target.Id())
    && (target.depth > 0 ==> Key(target.depth - 4, target.path / 16) in w.tmp)
    && (forall p :: p in w.filled ==> !p.IsSlot())
    && (target.depth < w.s.env.maxDepth ==> At(target.Id()) !in w.filled)
    && (target.depth == w.s.env.maxDepth ==> target.Id() !in w.tmp)
  }

  lemma NextStep(w: Work, vals: map<nat, Digest>, prog: map<nat, nat>, k: nat, walk: Walk)
    requires w.MarksOK() && Traced(w, vals, prog)
    requires k in prog && k in vals && WalkOK(w.s, vals[k], prog[k], k, walk)
    ensures OnTheWay(w, walk.target)
  {
    var d, env := walk.depth, w.s.env;
    assert env.Valid();
    hide Work.MarksOK;
    if d > 0 {
      PathAtParent(env, k, d - 4);
      UpIsCopied(w, vals, prog, k, Key(d - 4, PathAt(env, k, d) / 16));
    }
    if d == env.maxDepth {
      LeafIsNew(w, vals, prog, k);
    }
    hide MarksBy;
  }

  lemma WalkAt(w: Work, vals: map<nat, Digest>, prog: map<nat, nat>, running: map<nat, Walk>, leaves: map<nat, TreeNode>, k: nat)
    requires w.MarksOK() && w.s.env.Valid() && Traced(w, vals, prog) && Walking(w.s, w.tmp, vals, prog, running, leaves) && k in running
    ensures OnTheWay(w, running[k].target)
    ensures k in prog && k in vals && WalkOK(w.s, vals[k], prog[k], k, running[k])
    ensures if running[k].depth == w.s.env.maxDepth then running[k].target.Id() == LeafKey(w.s.env, k)
            else running[k].depth + 4 <= w.s.env.maxDepth
  {
    hide Work.MarksOK, Traced, MarksBy, FilledBy, OnTheWay, Pow2;
    NextStep(w, vals, prog, k, running[k]);
  }

  lemma UpIsCopied(w: Work, vals: map<nat, Digest>, prog: map<nat, nat>, k: nat, up: Key)
    requires w.MarksOK() && w.marks == MarksBy(w.s.env, prog) && k in prog
    requires KeyOK(w.s.env, up) && up.depth < prog[k] && PathAt(w.s.env, k, up.depth) == up.path
    ensures up in w.tmp
  {
    assert At(up).level < prog[k] && PathAt(w.s.env, k, At(up).level) == At(up).path;
    assert At(up) in w.marks;
  }

  lemma LeafIsNew(w: Work, vals: map<nat, Digest>, prog: map<nat, nat>, k: nat)
    requires w.MarksOK() && w.marks == MarksBy(w.s.env, prog) && k in prog && prog[k] == w.s.env.maxDepth
    ensures LeafKey(w.s.env, k) !in w.tmp
  {
    assert At(LeafKey(w.s.env, k)) !in w.marks;
  }

  /** One level further down. */
  lemma LevelTaken(w: Work, w': Work, vals: map<nat, Digest>, prog: map<nat, nat>, k: nat)
    requires Traced(w, vals, prog) && k in vals && k in prog && prog[k] + 4 <= w.s.env.maxDepth
    requires w' == w.(s := w.s.(saved := w'.s.saved), tmp := w'.tmp,
      marks := w.marks + iset{At(PathKey(w.s.env, k, prog[k]))} + SlotsAbove(PathKey(w.s.env, k, prog[k]), PathAt(w.s.env, k, prog[k] + 4) % 16))
    ensures Traced(w', vals, prog[k := prog[k] + 4])
    ensures Unplaced(w.s.env, vals, prog[k := prog[k] + 4]) < Unplaced(w.s.env, vals, prog)
  {
    hide MarksBy, FilledBy, SlotsAbove, PathAt, Unplaced;
    MarksStep(w.s.env, prog, k, prog[k]);
    SameFilled(w.s.env, vals, prog, k, prog[k] + 4);
    FewerUnplaced(w.s.env, vals, prog, k, prog[k] + 4);
  }

  lemma SameFilled(env: Env, vals: map<nat, Digest>, prog: map<nat, nat>, k: nat, d: nat)
    requires d <= env.maxDepth && (k in prog ==> prog[k] <= env.maxDepth)
    ensures FilledBy(env, vals, prog[k := d]) == FilledBy(env, vals, prog)
  {
    assert Reached(env, prog[k := d]) == Reached(env, prog);
  }

  lemma FewerUnplaced(env: Env, vals: map<nat, Digest>, prog: map<nat, nat>, k: nat, d: nat)
    requires k in prog && k in vals && prog[k] <= env.maxDepth && prog[k] < d
    ensures Unplaced(env, vals, prog[k := d]) < Unplaced(env, vals, prog)
  {
    assert (k, prog[k]) in Unplaced(env, vals, prog);
  }

  lemma WalkGoesOn(s: TreeState, s': TreeState, tmp: Journal, tmp': Journal, vals: map<nat, Digest>, prog: map<nat, nat>,
                   running: map<nat, Walk>, leaves: map<nat, TreeNode>, k: nat, walk: Walk)
    requires Walking(s, tmp, vals, prog, running, leaves) && k in running && WalkOK(s', vals[k], walk.depth, k, walk)
    requires s' == s.(saved := s'.saved) && s.saved <= s'.saved
    requires forall id :: id in tmp ==> id in tmp' && tmp'[id] == tmp[id]
    ensures Walking(s', tmp', vals, prog[k := walk.depth], running[k := walk], leaves)
  {
    hide PathAt, Pow2;
  }

  lemma WalkBegins(s: TreeState, tmp: Journal, vals: map<nat, Digest>, prog: map<nat, nat>,
                   running: map<nat, Walk>, leaves: map<nat, TreeNode>, k: nat, walk: Walk)
    requires Walking(s, tmp, vals, prog, running, leaves) && k in vals && k !in prog && k < Pow2(s.env.maxDepth)
    requires WalkOK(s, vals[k], 0, k, walk)
    ensures Walking(s, tmp, vals, prog[k := 0], running[k := walk], leaves)
  {
    hide PathAt, Pow2;
  }

  /** The leaf has been placed. */
  lemma LeafTaken(w: Work, w': Work, vals: map<nat, Digest>, prog: map<nat, nat>, k: nat)
    requires Traced(w, vals, prog) && k in vals && k in prog && prog[k] == w.s.env.maxDepth
    requires w' == w.(tmp := w'.tmp, marks := w.marks + iset{Pos(w.s.env.maxDepth, k)}, filled := w.filled[Pos(w.s.env.maxDepth, k) := vals[k]])
    ensures Traced(w', vals, prog[k := w.s.env.maxDepth + 1])
    ensures Unplaced(w.s.env, vals, prog[k := w.s.env.maxDepth + 1]) < Unplaced(w.s.env, vals, prog)
  {
    LeafStep(w.s.env, vals, prog, k);
    LeafReached(w.s.env, vals, prog, k);
    hide MarksBy, FilledBy, PathAt, Unplaced;
    FewerUnplaced(w.s.env, vals, prog, k, w.s.env.maxDepth + 1);
  }

  lemma WalkEnds(s: TreeState, tmp: Journal, tmp': Journal, vals: map<nat, Digest>, prog: map<nat, nat>,
                 running: map<nat, Walk>, leaves: map<nat, TreeNode>, k: nat, leaf: TreeNode)
    requires Walking(s, tmp, vals, prog, running, leaves) && k in running
    requires forall id :: id in tmp ==> id in tmp' && tmp'[id] == tmp[id]
    requires Copied(tmp', leaf) && leaf.Id() == LeafKey(s.env, k)
    ensures Walking(s, tmp', vals, prog[k := s.env.maxDepth + 1], running - {k}, leaves[k := leaf])
  {
    hide PathAt, Pow2;
  }

  /** A new item starts at the root. */
  lemma WalkStarts(w: Work, vals: map<nat, Digest>, prog: map<nat, nat>, k: nat)
    requires Traced(w, vals, prog) && k !in prog
    ensures Traced(w, vals, prog[k := 0])
    ensures Unplaced(w.s.env, vals, prog[k := 0]) == Unplaced(w.s.env, vals, prog)
  {
    hide FilledBy, Unplaced;
    SameFilled(w.s.env, vals, prog, k, 0);
    SameUnplaced(w.s.env, vals, prog, k);
    forall p ensures p in MarksBy(w.s.env, prog[k := 0]) <==> p in MarksBy(w.s.env, prog) {
      if p in MarksBy(w.s.env, prog) {
        var h :| h in prog && p.level < prog[h] && PathAt(w.s.env, h, p.level) == p.path;
        assert h in prog[k := 0] && p.level < prog[k := 0][h];
      }
    }
  }

  lemma SameUnplaced(env: Env, vals: map<nat, Digest>, prog: map<nat, nat>, k: nat)
    requires k !in prog
    ensures Unplaced(env, vals, prog[k := 0]) == Unplaced(env, vals, prog)
  {
  }

  /** The leaves that have been reached are those with copies. */
  lemma LeavesAre(w: Work, vals: map<nat, Digest>, prog: map<nat, nat>, running: map<nat, Walk>, leaves: map<nat, TreeNode>)
    requires w.MarksOK() && Traced(w, vals, prog) && Walking(w.s, w.tmp, vals, prog, running, leaves)
    ensures forall k :: k in leaves ==> k in vals && LeafKey(w.s.env, k) in w.tmp && k in prog && prog[k] > w.s.env.maxDepth
    ensures forall k :: k in prog && prog[k] > w.s.env.maxDepth ==> k in leaves
    ensures forall id :: id in w.tmp && id.depth == w.s.env.maxDepth ==> id.path in leaves
  {
    WalksAre(w.s, w.tmp, vals, prog, running, leaves);
    hide Walking, WalkOK, Pow2;
    forall id | id in w.tmp && id.depth == w.s.env.maxDepth ensures id.path in leaves {
      MarkedLeaf(w.s.env, prog, id);
    }
  }

  lemma WalksAre(s: TreeState, tmp: Journal, vals: map<nat, Digest>, prog: map<nat, nat>, running: map<nat, Walk>, leaves: map<nat, TreeNode>)
    requires Walking(s, tmp, vals, prog, running, leaves)
    ensures forall k :: k in leaves ==> k in vals && LeafKey(s.env, k) in tmp && k in prog && prog[k] > s.env.maxDepth
    ensures forall k :: k in prog && prog[k] > s.env.maxDepth ==> k in leaves
  {
    hide PathAt, Pow2;
    forall k | k in running ensures prog[k] <= s.env.maxDepth {
      assert WalkOK(s, vals[k], prog[k], k, running[k]);
    }
  }

  lemma MarkedLeaf(env: Env, prog: map<nat, nat>, id: Key)
    requires At(id) in MarksBy(env, prog) && id.depth == env.maxDepth
    ensures id.path in prog && prog[id.path] > env.maxDepth
  {
    var k :| k in prog && At(id).level < prog[k] && PathAt(env, k, At(id).level) == At(id).path;
  }
}
