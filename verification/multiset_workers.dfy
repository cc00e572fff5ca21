/** The workers on the heap: they climb through the copied nodes, and each of their steps is a
    step of the protocol. */
module MultiSetWorkers {
  import opened MerkleSpec
  import opened PackedNode
  import opened VersionList
  import opened Database
  import opened History
  import opened TreeNodes
  import opened NodeState
  import opened PendingUpdate
  import opened MultiSetProtocol
  import opened MultiSetWork

  /** Where a worker is: at a node whose hash is known, in the loop over the three slots above
      a pair of children, or about to publish a node. */
  datatype Climber =
    | AtNode(child: TreeNode)
    | Filling(node: TreeNode, prefix: nat, i: nat, nibble: nat, left: Digest, right: Digest)
    | Beside(node: TreeNode, prefix: nat, i: nat, nibble: nat, hash: Digest)
    | Publishing(node: TreeNode)
    | Stopped

  predicate Rung(prefix: nat, i: nat, nibble: nat) {
    (prefix == 6 && i == 4 && nibble < 8) || (prefix == 2 && i == 2 && nibble < 4) || (prefix == 0 && i == 1 && nibble < 2)
  }

  ghost predicate Copied(tmp: Journal, n: TreeNode) {
    n.Id() in tmp && tmp[n.Id()] == n
  }

  /** The climber stands where the worker of the protocol stands. */
  ghost predicate Matches(tmp: Journal, c: Climber, w: Worker) {
    match c
    case Stopped => w == Done
    case AtNode(n) => Copied(tmp, n) && w.Look? && w.pos == At(n.Id())
    case Filling(n, prefix, i, nibble, left, right) =>
      Copied(tmp, n) && Rung(prefix, i, nibble) && w == Fill(SlotAt(n.Id(), prefix + nibble), left, right)
    case Beside(n, prefix, i, nibble, hash) =>
      Copied(tmp, n) && Rung(prefix, i, nibble) && w == Look(SlotAt(n.Id(), prefix + nibble), hash)
    case Publishing(n) => Copied(tmp, n) && w == Announce(At(n.Id()))
  }

  /** The copies hold what the protocol says. */
  ghost predicate Mirror(w: Work, j: Job, st: State)
    reads w.tmp.Values, w.s.saved, w.s.journal.Values
  {
    Framed(w, j) && w.filled == st.filled && OnTrack(j, st)
  }

  /** The copies are in order, and they are the copies this job needs. Nodes that were pending
      before carry the pending version already. */
  ghost predicate Framed(w: Work, j: Job)
    reads w.tmp.Values, w.s.saved, w.s.journal.Values
  {
    && w.TmpOK() && w.s.Nodes() && |w.s.hist| <= w.ver
    && j.Valid() && j.env == w.s.env && j.was == w.s.now && j.stamped == Stamped(w.s.env, w.s.journal.Keys, w.s.now)
    && forall p :: p in w.marks <==> j.Marked(p)
  }

  /** The nodes that are pending before, with the hashes they show. */
  ghost function Stamped(env: Env, dirty: set<Key>, was: LeafMap): map<Pos, Digest> {
    map id | id in dirty && KeyOK(env, id) :: At(id) := KeyHash(env, id, was)
  }

  // ---- what the nodes show ----

  /** Whether a node of the job has been published shows in its latest version. */
  lemma SeeNode(w: Work, j: Job, st: State, id: Key)
    requires Mirror(w, j, st) && id in w.tmp
    ensures See(j, st, At(id)) == if w.tmp[id].LatestVersion() < w.ver then None else Some(w.tmp[id].Root())
  {
    assert w.NodeOK(w.tmp[id]);
    assert ListOK(w.s.env, w.s.m, w.s.hist, w.s.floor, id);
  }

  /** A node outside the job shows its old hash. */
  lemma SeeClean(w: Work, j: Job, st: State, id: Key, i: nat)
    requires Mirror(w, j, st) && id in w.tmp && Interior(w.s.env, id) && i < 16 && id.Child(i) !in w.tmp
    ensures |w.tmp[id].children| == 16
    ensures See(j, st, At(id.Child(i))) == Some(w.tmp[id].ChildRoot(i))
  {
    hide OnTrack, Job.Marked, Work.SlotsOK, TreeState.AllSaved, TreeState.AllPending, DbOK;
    assert w.NodeOK(w.tmp[id]);
    assert w.ChildOK(id.Child(i), w.tmp[id].children[i]);
    w.s.PendingChildRoot(id.Child(i), w.tmp[id].children[i]);
  }

  lemma SeeSlot(w: Work, j: Job, st: State, id: Key, i: nat)
    requires Mirror(w, j, st) && id in w.tmp && Interior(w.s.env, id) && i < 14
    ensures |w.tmp[id].internals| == 14 && See(j, st, SlotAt(id, i)) == w.tmp[id].internals[i]
  {
    hide OnTrack, Job.Marked, Job.Valid, TreeState.Nodes, Work.MarksOK, Work.KidsOK, Work.List, BinHash, SlotAt;
    assert w.NodeOK(w.tmp[id]);
    assert w.SlotOK(id, i, w.tmp[id].internals[i]);
    SlotPlace(w.s.env, id, w.s.now, i);
    SlotNotStamped(w.s.env, w.s.journal.Keys, w.s.now, id, i);
  }

  lemma SlotNotStamped(env: Env, dirty: set<Key>, was: LeafMap, id: Key, i: nat)
    requires id.depth % 4 == 0 && i < 14
    ensures SlotAt(id, i) !in Stamped(env, dirty, was)
  {
    forall other | KeyOK(env, other) ensures SlotAt(id, i) != At(other) {
      SlotsApart(id, i, other, 0);
    }
  }

  lemma SlotPlace(env: Env, id: Key, m: LeafMap, i: nat)
    requires Interior(env, id) && i < 14
    ensures SlotAt(id, i).level <= env.maxDepth
    ensures PackSpec(env, id, m)[i] == Some(BinHash(env, SlotAt(id, i).level, SlotAt(id, i).path, m))
  {
    SlotIsBinHash(env, id, m, i);
  }

  // ---- the steps ----

  /** The places around a node and its sibling, as the worker computes them. */
  lemma AroundNode(id: Key)
    requires id.depth % 4 == 0 && id.depth > 0
    ensures var up := Key(id.depth - 4, id.path / 16);
      && id.Parent() == up && id == up.Child(id.path % 16) && up.Child(Xor1(id.path % 16)) == Key(id.depth, Xor1(id.path))
      && At(id).Up() == SlotAt(up, 6 + id.path % 16 / 2) && At(id).Up().IsSlot()
  {
  }

  lemma AroundSlot(id: Key, prefix: nat, i: nat, nibble: nat)
    requires id.depth % 4 == 0 && Rung(prefix, i, nibble)
    ensures Xor1(prefix + nibble) < 14
    ensures var x := SlotAt(id, prefix + nibble);
      && x.IsSlot() && x.level > 0 && x.Sibling() == SlotAt(id, Xor1(prefix + nibble)) && x.path % 2 == nibble % 2
      && if i == 1 then x.Up() == At(id) && !At(id).IsSlot()
         else prefix >= i && Rung(prefix - i, i / 2, nibble / 2) && x.Up().IsSlot()
              && x.Up() == SlotAt(id, prefix - i + nibble / 2)
  {
    if i == 4 {
      LowRung(id, nibble);
    } else if i == 2 {
      MiddleRung(id, nibble);
    } else {
      assert nibble == 0 || nibble == 1;
    }
  }

  lemma LowRung(id: Key, n: nat)
    requires id.depth % 4 == 0 && n < 8
    ensures Xor1(6 + n) < 14 && Rung(2, 2, n / 2)
    ensures var x := SlotAt(id, 6 + n);
      x.Sibling() == SlotAt(id, Xor1(6 + n)) && x.path % 2 == n % 2 && x.Up() == SlotAt(id, 2 + n / 2) && x.IsSlot() && x.Up().IsSlot()
  {
    var h, r := n / 2, n % 2;
    assert n == 2 * h + r && h < 4;
    assert (6 + n) % 2 == r && (8 * id.path + n) % 2 == r && (8 * id.path + n) / 2 == 4 * id.path + h;
  }

  lemma MiddleRung(id: Key, n: nat)
    requires id.depth % 4 == 0 && n < 4
    ensures Xor1(2 + n) < 6 && Rung(0, 1, n / 2)
    ensures var x := SlotAt(id, 2 + n);
      x.Sibling() == SlotAt(id, Xor1(2 + n)) && x.path % 2 == n % 2 && x.Up() == SlotAt(id, n / 2) && x.IsSlot() && x.Up().IsSlot()
  {
    assert Xor1(2 + n) == 2 + Xor1(n);
  }

  /** What a worker at a node of the job can rely on. */
  lemma Standing(w: Work, j: Job, st: State, n: TreeNode)
    requires Mirror(w, j, st) && Copied(w.tmp, n)
    ensures KeyOK(w.s.env, n.Id()) && n.env == w.s.env && n.Shape() && w.s.env.Valid() && j.env == w.s.env
    ensures n.depth > 0 <==> n.Id().Parent() in w.tmp
    ensures n.depth > 0 ==> Copied(w.tmp, w.tmp[n.Id().Parent()]) && w.tmp[n.Id().Parent()].Id() == n.Id().Parent()
    ensures At(n.Id()) in st.filled ==> st.filled[At(n.Id())] == n.Root()
  {
    hide OnTrack, Job.Marked, TreeState.Nodes, Work.SlotOK;
    assert w.NodeOK(n);
    ParentCopied(w, n.Id());
  }

  lemma ParentCopied(w: Work, id: Key)
    requires w.MarksOK() && id in w.tmp
    ensures id.depth > 0 <==> id.Parent() in w.tmp
  {
    if id.depth > 0 {
      AroundNode(id);
      assert At(Key(id.depth - 4, id.path / 16).Child(id.path % 16)) in w.marks;
    }
  }

  lemma NibbleBeside(nibble: nat)
    requires nibble < 16
    ensures Xor1(nibble) < 16
  {
  }

  /** What is beside a node: a node of the job that may be waited for, or an old hash. */
  method NeighborOf(tmp: Journal, child: TreeNode, parent: TreeNode, version: nat, ghost w: Work, ghost j: Job, ghost st: State)
    returns (beside: Option<Digest>)
    requires Mirror(w, j, st) && tmp == w.tmp && Copied(tmp, child) && child.depth > 0 && version == w.ver
    requires child.Id().Parent() in tmp && parent == tmp[child.Id().Parent()] && parent.Id() == child.Id().Parent()
    ensures beside == See(j, st, At(child.Id()).Sibling())
  {
    hide Mirror, See, Xor1;
    var nibble := child.path % 16;
    var sibling := Key(child.depth, Xor1(child.path));
    NibbleBeside(nibble);
    Standing(w, j, st, child);
    Standing(w, j, st, parent);
    AroundNode(child.Id());
    if sibling in tmp {
      SeeNode(w, j, st, sibling);
      if tmp[sibling].LatestVersion() < version {
        return None;
      }
      return Some(tmp[sibling].Root());
    }
    SeeClean(w, j, st, parent.Id(), Xor1(nibble));
    if parent.children[Xor1(nibble)] != null {
      return Some(parent.children[Xor1(nibble)].Root());
    }
    beside := Some(NilHash(parent.env, parent.depth + 4));
  }

  /** At a node: the worker goes on if the sibling is outside the job or published. */
  method LookBesideNode(tmp: Journal, child: TreeNode, version: nat, ghost w: Work, ghost j: Job, ghost st: State, ghost own: Digest)
    returns (c: Climber)
    requires Mirror(w, j, st) && tmp == w.tmp && Copied(tmp, child) && At(child.Id()) in st.filled && version == w.ver
    ensures Matches(tmp, c, AfterLook(j, st, At(child.Id()), own)) && Mirror(w, j, st)
  {
    hide Mirror, See;
    Standing(w, j, st, child);
    if child.Id().Parent() !in tmp {
      return Stopped;
    }
    var parent := tmp[child.Id().Parent()];
    AroundNode(child.Id());
    var beside := NeighborOf(tmp, child, parent, version, w, j, st);
    if beside.None? {
      return Stopped;
    }
    var nibble := child.path % 16;
    if nibble % 2 == 0 {
      c := Filling(parent, 6, 4, nibble / 2, child.Root(), beside.value);
    } else {
      c := Filling(parent, 6, 4, nibble / 2, beside.value, child.Root());
    }
  }

  /** After filling a slot: the worker goes on if the slot beside it is filled too. */
  method LookBesideSlot(tmp: Journal, node: TreeNode, prefix: nat, i: nat, nibble: nat, hash: Digest,
                        ghost w: Work, ghost j: Job, ghost st: State)
    returns (c: Climber)
    requires Mirror(w, j, st) && tmp == w.tmp && Copied(tmp, node) && Rung(prefix, i, nibble) && Interior(w.s.env, node.Id())
    ensures Matches(tmp, c, AfterLook(j, st, SlotAt(node.Id(), prefix + nibble), hash))
  {
    hide Mirror, See, SlotAt;
    AroundSlot(node.Id(), prefix, i, nibble);
    SeeSlot(w, j, st, node.Id(), Xor1(prefix + nibble));
    var beside := node.internals[Xor1(prefix + nibble)];
    if beside.None? {
      return Stopped;
    }
    if i / 2 == 0 {
      return Publishing(node);
    }
    if nibble % 2 == 0 {
      c := Filling(node, prefix - i, i / 2, nibble / 2, hash, beside.value);
    } else {
      c := Filling(node, prefix - i, i / 2, nibble / 2, beside.value, hash);
    }
  }

  /** Fills a slot, if nobody else has. */
  method FillSlot(tmp: Journal, node: TreeNode, prefix: nat, i: nat, nibble: nat, left: Digest, right: Digest,
                  ghost w: Work, ghost j: Job, ghost st: State)
    returns (c: Climber, ghost w': Work)
    requires Mirror(w, j, st) && tmp == w.tmp && Copied(tmp, node) && Rung(prefix, i, nibble) && Interior(w.s.env, node.Id())
    requires j.Marked(SlotAt(node.Id(), prefix + nibble))
    modifies node`internals
    ensures Framed(w', j)
    ensures var (y, h) := (SlotAt(node.Id(), prefix + nibble), j.env.hash(left, right));
      if y in st.filled then w' == w && c == Stopped
      else w' == w.(filled := st.filled[y := h]) && c == Beside(node, prefix, i, nibble, h)
  {
    hide Job.Marked, SlotAt, OnTrack, TreeState.Nodes;
    var hash, setBefore;
    hash, setBefore, w' := FillNode(node, prefix + nibble, left, right, w);
    c := if setBefore then Stopped else Beside(node, prefix, i, nibble, hash);
  }

  /** Publishes a node whose two topmost slots are filled. */
  method Announced(tmp: Journal, node: TreeNode, version: nat, ghost w: Work, ghost j: Job, ghost st: State)
    returns (c: Climber, ghost w': Work)
    requires Mirror(w, j, st) && tmp == w.tmp && Copied(tmp, node) && Interior(w.s.env, node.Id()) && version == w.ver
    modifies node`versions
    ensures Framed(w', j) && c == AtNode(node)
    ensures var y := At(node.Id());
      w' == w.(filled := st.filled[y := j.env.hash(Raw(j.env, See(j, st, y.Down(0))), Raw(j.env, See(j, st, y.Down(1))))])
  {
    hide Job.Marked, See, OnTrack;
    PublishFacts(w, j, st, node);
    hide TreeState.Nodes;
    var h := node.env.hash(Raw(node.env, node.internals[0]), Raw(node.env, node.internals[1]));
    w' := PublishNode(node, h, version, w);
    c := AtNode(node);
  }

  lemma PublishFacts(w: Work, j: Job, st: State, n: TreeNode)
    requires Mirror(w, j, st) && Copied(w.tmp, n) && Interior(w.s.env, n.Id())
    ensures |n.internals| == 14 && n.env == j.env && Latest(VersionsAt(w.s.m, n.Id())) < w.ver
    ensures See(j, st, At(n.Id()).Down(0)) == n.internals[0] && See(j, st, At(n.Id()).Down(1)) == n.internals[1]
  {
    hide OnTrack, Job.Marked, See, Work.MarksOK, Work.SlotsOK, Work.KidsOK;
    SeeSlot(w, j, st, n.Id(), 0);
    SeeSlot(w, j, st, n.Id(), 1);
    assert w.NodeOK(n);
    assert ListOK(w.s.env, w.s.m, w.s.hist, w.s.floor, n.Id());
  }

  /** Slots and nodes that workers act on are above the leaves. */
  lemma Standpoint(w: Work, j: Job, st: State, c: Climber, k: nat)
    requires Mirror(w, j, st) && k < |st.workers| && Matches(w.tmp, c, st.workers[k])
    ensures match c
            case Stopped => true
            case AtNode(n) => At(n.Id()) in st.filled
            case Filling(n, prefix, i, nibble, _, _) => Interior(w.s.env, n.Id()) && j.Marked(SlotAt(n.Id(), prefix + nibble))
            case Beside(n, _, _, _, _) => Interior(w.s.env, n.Id())
            case Publishing(n) => Interior(w.s.env, n.Id())
  {
    hide OnTrack, Job.Marked, Work.TmpOK, TreeState.Nodes;
    Anchored(j, st, k);
    CopiesFit(w);
  }

  lemma Anchored(j: Job, st: State, k: nat)
    requires OnTrack(j, st) && k < |st.workers|
    ensures match st.workers[k]
            case Done => true
            case Look(x, _) => x in st.filled && x.level <= j.env.maxDepth
            case Fill(y, _, _) => j.Marked(y) && y.level < j.env.maxDepth
            case Announce(y) => y.level < j.env.maxDepth
  {
    assert WorkerOnTrack(j, st, st.workers[k]);
  }

  lemma CopiesFit(w: Work)
    requires w.TmpOK()
    ensures forall id :: id in w.tmp ==> KeyOK(w.s.env, id) && w.tmp[id].Id() == id
  {
  }

  /** One step of one worker, on the nodes: it is the step of the protocol. */
  method StepClimber(tmp: Journal, c: Climber, version: nat, ghost w: Work, ghost j: Job, ghost st: State, ghost k: nat)
    returns (c': Climber, ghost w': Work)
    requires Mirror(w, j, st) && tmp == w.tmp && version == w.ver
    requires k < |st.workers| && Matches(tmp, c, st.workers[k])
    modifies tmp.Values
    ensures Mirror(w', j, Step(j, st, k)) && w' == w.(filled := Step(j, st, k).filled)
    ensures Matches(tmp, c', Step(j, st, k).workers[k])
  {
    hide OnTrack, Job.Marked, See, SlotAt, AfterLook, Framed;
    Standpoint(w, j, st, c, k);
    OnTrackStep(j, st, k);
    w' := w;
    match c {
      case Stopped => c' := Stopped;
      case AtNode(n) =>
        c' := LookBesideNode(tmp, n, version, w, j, st, st.workers[k].own);
      case Filling(n, prefix, i, nibble, left, right) =>
        c', w' := FillSlot(tmp, n, prefix, i, nibble, left, right, w, j, st);
      case Beside(n, prefix, i, nibble, hash) =>
        c' := LookBesideSlot(tmp, n, prefix, i, nibble, hash, w, j, st);
      case Publishing(n) =>
        c', w' := Announced(tmp, n, version, w, j, st);
    }
  }

  /** The climbers stand where the workers of the protocol stand. */
  ghost predicate InStep(tmp: Journal, climbers: seq<Climber>, st: State) {
    |climbers| == |st.workers| && forall i :: 0 <= i < |climbers| ==> Matches(tmp, climbers[i], st.workers[i])
  }

  /** Lets all workers run until they have stopped. The first to move are those `plan` names,
      which stands for the scheduler; which one moves after that is left open. */
  method RunClimbers(tmp: Journal, start: seq<Climber>, version: nat, plan: seq<nat>, ghost w: Work, ghost j: Job, ghost st0: State)
    returns (ghost w': Work, ghost schedule: seq<nat>)
    requires Mirror(w, j, st0) && tmp == w.tmp && version == w.ver && InStep(tmp, start, st0)
    modifies tmp.Values
    ensures Schedules(st0, schedule) && Run(j, st0, schedule).Stopped()
    ensures Mirror(w', j, Run(j, st0, schedule)) && w' == w.(filled := Run(j, st0, schedule).filled)
    ensures Schedules(st0, plan) && Run(j, st0, plan).Stopped() ==> schedule == plan
  {
    hide Mirror, Step, Matches;
    var climbers := start;
    ghost var st := st0;
    w', schedule := w, [];
    var next := 0;
    while next < |plan| || exists k :: 0 <= k < |climbers| && !climbers[k].Stopped?
      invariant Schedules(st0, schedule) && st == Run(j, st0, schedule) && next <= |plan|
      invariant Mirror(w', j, st) && w' == w.(filled := w'.filled) && InStep(tmp, climbers, st)
      invariant Schedules(st0, plan) && Run(j, st0, plan).Stopped() ==> schedule == plan[..next]
      decreases |plan| - next, TotalLeft(st.workers)
    {
      var k;
      if next < |plan| {
        k := plan[next];
        next := next + 1;
      } else {
        k :| 0 <= k < |climbers| && !climbers[k].Stopped?;
        PlanIsOver(tmp, climbers, j, st0, st, schedule, plan, k);
      }
      if k < |climbers| {
        Advance(tmp, climbers, j, st, k);
        var c;
        c, w' := StepClimber(tmp, climbers[k], version, w', j, st, k);
        climbers := climbers[k := c];
        st := Step(j, st, k);
        OneMore(j, st0, schedule, k);
        schedule := schedule + [k];
      }
    }
    assert plan[..next] == plan;
    AllStopped(tmp, climbers, w', j, st);
  }

  /** A plan that runs to the end leaves nothing to be chosen. */
  lemma PlanIsOver(tmp: Journal, climbers: seq<Climber>, j: Job, st0: State, st: State, schedule: seq<nat>, plan: seq<nat>, k: nat)
    requires InStep(tmp, climbers, st) && k < |climbers| && !climbers[k].Stopped?
    requires Schedules(st0, schedule) && st == Run(j, st0, schedule)
    ensures Schedules(st0, plan) && schedule == plan ==> !Run(j, st0, plan).Stopped()
  {
    assert Matches(tmp, climbers[k], st.workers[k]);
  }

  lemma OneMore(j: Job, s: State, schedule: seq<nat>, k: nat)
    requires Schedules(s, schedule) && k < |s.workers|
    ensures Schedules(s, schedule + [k]) && Run(j, s, schedule + [k]) == Step(j, Run(j, s, schedule), k)
  {
    RunAppend(j, s, schedule, [k]);
    assert Run(j, Run(j, s, schedule), [k]) == Step(j, Run(j, s, schedule), k);
  }

  lemma Advance(tmp: Journal, climbers: seq<Climber>, j: Job, st: State, k: nat)
    requires InStep(tmp, climbers, st) && k < |climbers|
    ensures Matches(tmp, climbers[k], st.workers[k])
    ensures forall i :: 0 <= i < |climbers| && i != k ==> Matches(tmp, climbers[i], Step(j, st, k).workers[i])
    ensures if climbers[k].Stopped? then Step(j, st, k) == st else TotalLeft(Step(j, st, k).workers) < TotalLeft(st.workers)
  {
    assert Matches(tmp, climbers[k], st.workers[k]);
    StepAdvances(j, st, k);
  }

  lemma AllStopped(tmp: Journal, climbers: seq<Climber>, w: Work, j: Job, st: State)
    requires InStep(tmp, climbers, st) && forall i :: 0 <= i < |climbers| ==> climbers[i].Stopped?
    requires Mirror(w, j, st)
    ensures st.Stopped() && w.filled == st.filled
  {
    forall i | 0 <= i < |st.workers| ensures st.workers[i].Done? {
      assert Matches(tmp, climbers[i], st.workers[i]);
    }
  }

  // ---- the end ----

  /** The tree in which the copies have become the journal. */
  ghost function After(w: Work, j: Job): TreeState {
    w.s.(now := j.now, ver := w.ver, journal := w.s.journal + w.tmp)
  }

  lemma AfterIsReady(w: Work, j: Job)
    requires Framed(w, j)
    ensures After(w, j).Ready()
  {
    hide Framed, DbOK, PathAt, LeafHash;
    FramedTree(w, j);
    hide TreeState.AllSaved, TreeState.AllPending;
    var journal := After(w, j).journal;
    forall id | id in journal ensures ParentIn(w.s.env, journal.Keys, id) && journal[id].Id() == id {
      if id in w.tmp {
        CopyHasParent(w, j, id);
      } else {
        assert ParentIn(w.s.env, w.s.journal.Keys, id);
      }
    }
    forall k: nat | LeafKey(w.s.env, k) !in journal
      ensures LeafHash(w.s.env, Newest(w.s.hist), k) == LeafHash(w.s.env, j.now, k)
    {
      CleanLeaf(w, j, k);
      assert LeafHash(w.s.env, Newest(w.s.hist), k) == LeafHash(w.s.env, w.s.now, k);
    }
  }

  lemma FramedTree(w: Work, j: Job)
    requires Framed(w, j)
    ensures w.s.Nodes() && |w.s.hist| <= w.ver && j.env == w.s.env && w.s.env.Valid() && (w.s.journal != map[] ==> w.s.ver == w.ver)
  {
  }

  lemma CopyHasParent(w: Work, j: Job, id: Key)
    requires Framed(w, j) && id in w.tmp
    ensures ParentIn(w.s.env, w.tmp.Keys, id) && w.tmp[id].Id() == id
  {
    ParentCopied(w, id);
    if id.depth == 0 {
      var k :| k in j.keys && PathAt(j.env, k, 0) == id.path;
    } else {
      AroundNode(id);
    }
  }

  lemma CleanLeaf(w: Work, j: Job, k: nat)
    requires Framed(w, j) && LeafKey(w.s.env, k) !in w.tmp
    ensures LeafHash(w.s.env, w.s.now, k) == LeafHash(w.s.env, j.now, k)
  {
    assert At(LeafKey(w.s.env, k)) !in w.marks;
    assert PathAt(j.env, k, j.env.maxDepth) == k;
  }

  /** A node that was pending before and has not been copied fits the new snapshot as it is. */
  lemma OldInTheEnd(w: Work, j: Job, id: Key)
    requires Framed(w, j) && id in w.s.journal && id !in w.tmp
    ensures After(w, j).PendingNode(w.s.journal[id])
  {
    hide Framed, TreeState.Ready, ChildSpec, BinHash, Work.TmpOK;
    FramedTree(w, j);
    var n, t := w.s.journal[id], After(w, j);
    assert w.s.PendingNode(n);
    JournalId(w.s, id);
    OldIsClean(w, j, id);
    if Interior(w.s.env, id) {
      forall i | 0 <= i < 16 ensures t.ChildPending(id.Child(i), n.children[i]) {
        assert w.s.ChildPending(id.Child(i), n.children[i]);
      }
      assert n.internals == PackSpec(w.s.env, id, j.now);
    }
    assert n.versions == t.Versions(id);
  }

  lemma JournalId(s: TreeState, id: Key)
    requires s.Nodes() && id in s.journal
    ensures s.journal[id].Id() == id && KeyOK(s.env, id)
  {
    assert s.PendingNode(s.journal[id]);
  }

  /** Outside the copies nothing changes. */
  lemma OldIsClean(w: Work, j: Job, id: Key)
    requires Framed(w, j) && KeyOK(w.s.env, id) && id !in w.tmp
    ensures KeyHash(w.s.env, id, w.s.now) == KeyHash(w.s.env, id, j.now)
    ensures Interior(w.s.env, id) ==> ChildSpec(w.s.env, id, w.s.now) == ChildSpec(w.s.env, id, j.now)
    ensures Interior(w.s.env, id) ==> forall i :: 0 <= i < 16 ==> id.Child(i) !in w.tmp
  {
    hide Work.NodeOK, TreeState.Nodes, Job.Valid, Job.Marked, BinHash;
    UnmarkedKeeps(j, At(id));
    if Interior(w.s.env, id) {
      forall i | 0 <= i < 16
        ensures id.Child(i) !in w.tmp
        ensures KeyHash(w.s.env, id.Child(i), w.s.now) == KeyHash(w.s.env, id.Child(i), j.now)
      {
        assert At(id.Child(i)) !in w.marks;
        UnmarkedKeeps(j, At(id.Child(i)));
      }
      assert ChildSpec(w.s.env, id, w.s.now) == ChildSpec(w.s.env, id, j.now) by {
        forall i | 0 <= i < 16 ensures ChildSpec(w.s.env, id, w.s.now)[i] == ChildSpec(w.s.env, id, j.now)[i] {
          assert KeyHash(w.s.env, id.Child(i), w.s.now) == KeyHash(w.s.env, id.Child(i), j.now);
        }
      }
    }
  }

  lemma SlotInTheEnd(w: Work, j: Job, st: State, id: Key, i: nat, slot: Option<Digest>)
    requires Mirror(w, j, st) && Inv(j, st) && st.Stopped() && Interior(w.s.env, id) && i < 14 && w.SlotOK(id, i, slot)
    ensures slot == PackSpec(w.s.env, id, j.now)[i]
  {
    hide Inv, Work.TmpOK, TreeState.Nodes;
    SlotIsBinHash(w.s.env, id, j.was, i);
    SlotIsBinHash(w.s.env, id, j.now, i);
    if j.Marked(SlotAt(id, i)) {
      NothingLeft(j, st, SlotAt(id, i));
    } else {
      UnmarkedKeeps(j, SlotAt(id, i));
    }
  }

  /** When all workers have stopped, every copy is a node of the tree of the new snapshot. */
  lemma CopyInTheEnd(w: Work, j: Job, st: State, id: Key)
    requires Mirror(w, j, st) && Inv(j, st) && st.Stopped() && id in w.tmp
    ensures After(w, j).PendingNode(w.tmp[id])
  {
    hide Inv, DbOK, PathAt, BinHash, PackSpec, Job.Valid, TreeState.Nodes;
    var n, t := w.tmp[id], After(w, j);
    assert w.NodeOK(n) && n.Id() == id;
    NothingLeft(j, st, At(id));
    assert n.versions == t.Versions(id);
    if Interior(w.s.env, id) {
      PackLength(w.s.env, id, j.now);
      forall i | 0 <= i < 14 ensures n.internals[i] == PackSpec(w.s.env, id, j.now)[i] {
        assert w.SlotOK(id, i, n.internals[i]);
        SlotInTheEnd(w, j, st, id, i, n.internals[i]);
      }
      forall i | 0 <= i < 16 ensures t.ChildPending(id.Child(i), n.children[i]) {
        assert w.ChildOK(id.Child(i), n.children[i]);
      }
    }
  }

  lemma PackLength(env: Env, id: Key, m: LeafMap)
    requires Interior(env, id)
    ensures |PackSpec(env, id, m)| == 14
  {
  }

  lemma AllInTheEnd(w: Work, j: Job, st: State)
    requires Mirror(w, j, st) && Inv(j, st) && st.Stopped()
    ensures After(w, j).Nodes() && ROOT_KEY in w.tmp
  {
    AfterIsReady(w, j);
    forall id | id in After(w, j).journal
      ensures After(w, j).PendingNode(After(w, j).journal[id]) && After(w, j).journal[id] !in w.s.saved
    {
      if id in w.tmp {
        CopyInTheEnd(w, j, st, id);
      } else {
        OldInTheEnd(w, j, id);
      }
    }
    forall n | n in w.s.saved ensures After(w, j).SavedNode(n) {
      SavedSame(w.s, After(w, j), n);
    }
    var k :| k in j.keys;
    assert j.Marked(At(ROOT_KEY));
  }
}
