/** Setting many leaves at once: one worker per leaf climbs the tree, and at every slot the
    workers decide between themselves who goes on. The workers share nothing but the slots and
    the published versions; each access to one of them is one step, and the steps of all
    workers interleave in any order. */
module MultiSetProtocol {
  import opened MerkleSpec

  /** A place in the binary tree: a slot inside a stored node, or, on every fourth level, the
      published hash of a stored node. */
  datatype Pos = Pos(level: nat, path: nat) {
    function Up(): Pos
      requires level > 0
    {
      Pos(level - 1, path / 2)
    }

    function Down(i: nat): Pos {
      Pos(level + 1, 2 * path + i)
    }

    function Sibling(): Pos {
      Pos(level, Xor1(path))
    }

    predicate IsSlot() {
      level % 4 != 0
    }
  }

  /** What is to be done: `was` is the snapshot before, `now` the one after, `keys` the leaves
      that are set. `stamped` are nodes that carry the pending version from earlier on, with the
      hashes they show. */
  datatype Job = Job(env: Env, was: LeafMap, now: LeafMap, keys: set<nat>, stamped: map<Pos, Digest>)
  {
    ghost predicate Valid() {
      && env.Valid() && keys != {}
      && (forall k :: k in keys ==> PathAt(env, k, 0) == 0)
      && (forall p :: p in stamped ==> !p.IsSlot())
      && (forall k: nat :: k !in keys ==> LeafHash(env, was, k) == LeafHash(env, now, k))
    }

    /** The place has to be filled anew. */
    ghost predicate Marked(p: Pos) {
      p.level <= env.maxDepth && exists k :: k in keys && PathAt(env, k, p.level) == p.path
    }

    /** No node that has to be computed anew, and whose sibling has to, looks finished while it
        still shows a wrong hash. */
    ghost predicate NoStaleSibling() {
      forall p :: p in stamped && Marked(p) && Marked(p.Sibling()) ==> p.level == env.maxDepth || stamped[p] == Goal(p)
    }

    /** What the place must hold in the end. */
    function Goal(p: Pos): Digest
      requires p.level <= env.maxDepth
    {
      BinHash(env, p.level, p.path, now)
    }
  }

  /** Where a worker is: about to look beside the place it has filled, about to fill a slot
      from the two hashes below it, about to publish a stored node, or finished. */
  datatype Worker = Look(pos: Pos, own: Digest) | Fill(pos: Pos, left: Digest, right: Digest) | Announce(pos: Pos) | Done

  datatype State = State(filled: map<Pos, Digest>, workers: seq<Worker>) {
    function Move(w: nat, next: Worker): State
      requires w < |workers|
    {
      this.(workers := workers[w := next])
    }

    ghost predicate Stopped() {
      forall w :: 0 <= w < |workers| ==> workers[w].Done?
    }
  }

  /** What a worker reads at a place; None if it is still empty. */
  ghost function See(j: Job, s: State, p: Pos): Option<Digest> {
    if p.level > j.env.maxDepth then None
    else if !j.Marked(p) then Some(BinHash(j.env, p.level, p.path, j.was))
    else if p in s.filled then Some(s.filled[p])
    else if p in j.stamped then Some(j.stamped[p])
    else None
  }

  /** The hash a worker has for the place below it: that of a stored node it reads again. */
  function Own(s: State, x: Pos, own: Digest): Digest {
    if !x.IsSlot() && x in s.filled then s.filled[x] else own
  }

  ghost function AfterLook(j: Job, s: State, x: Pos, own: Digest): Worker {
    if x.level == 0 then Done
    else match See(j, s, x.Sibling())
      case None => Done
      case Some(beside) =>
        if !x.Up().IsSlot() then Announce(x.Up())
        else if x.path % 2 == 0 then Fill(x.Up(), Own(s, x, own), beside)
        else Fill(x.Up(), beside, Own(s, x, own))
  }

  /** One step of worker `w`. */
  ghost function Step(j: Job, s: State, w: nat): (t: State)
    requires w < |s.workers|
    ensures |t.workers| == |s.workers|
  {
    match s.workers[w]
    case Done => s
    case Look(x, own) => s.Move(w, AfterLook(j, s, x, own))
    case Fill(y, left, right) =>
      if y in s.filled then s.Move(w, Done)
      else s.Move(w, Look(y, j.env.hash(left, right))).(filled := s.filled[y := j.env.hash(left, right)])
    case Announce(y) =>
      var h := j.env.hash(Raw(j.env, See(j, s, y.Down(0))), Raw(j.env, See(j, s, y.Down(1))));
      s.Move(w, Look(y, h)).(filled := s.filled[y := h])
  }

  ghost function Start(j: Job, order: seq<nat>): State {
    State(map k | k in j.keys :: Pos(j.env.maxDepth, k) := LeafHash(j.env, j.now, k),
          seq(|order|, i requires 0 <= i < |order| => Look(Pos(j.env.maxDepth, order[i]), LeafHash(j.env, j.now, order[i]))))
  }

  ghost predicate Schedules(s: State, schedule: seq<nat>) {
    forall i :: 0 <= i < |schedule| ==> schedule[i] < |s.workers|
  }

  /** The steps of all workers, interleaved as `schedule` says. */
  ghost function Run(j: Job, s: State, schedule: seq<nat>): (t: State)
    requires Schedules(s, schedule)
    ensures |t.workers| == |s.workers|
    decreases |schedule|
  {
    if schedule == [] then s
    else Run(j, Step(j, s, schedule[0]), schedule[1..])
  }

  // ---- what every step keeps ----

  ghost predicate Ready(j: Job, s: State, p: Pos) {
    p.level <= j.env.maxDepth && (j.Marked(p) ==> p in s.filled)
  }

  ghost predicate FilledRight(j: Job, s: State, p: Pos) {
    j.Marked(p) && p in s.filled && s.filled[p] == j.Goal(p)
  }

  ghost predicate BothReady(j: Job, s: State, y: Pos) {
    j.Marked(y) && y.level < j.env.maxDepth && Ready(j, s, y.Down(0)) && Ready(j, s, y.Down(1))
  }

  ghost predicate WorkerRight(j: Job, s: State, w: Worker) {
    match w
    case Done => true
    case Look(x, own) => x in s.filled && own == s.filled[x]
    case Fill(y, left, right) =>
      && y.IsSlot() && j.Marked(y) && y.level < j.env.maxDepth
      && left == j.Goal(y.Down(0)) && right == j.Goal(y.Down(1))
    case Announce(y) => !y.IsSlot() && BothReady(j, s, y)
  }

  /** The worker is bound to fill `y` unless somebody else does. */
  ghost predicate Serves(w: Worker, y: Pos) {
    match w
    case Done => false
    case Look(x, _) => x.level > 0 && x.Up() == y
    case Fill(p, _, _) => p == y
    case Announce(p) => p == y
  }

  ghost predicate Served(s: State, y: Pos) {
    exists w :: 0 <= w < |s.workers| && Serves(s.workers[w], y)
  }

  ghost predicate Inv(j: Job, s: State) {
    && (forall k :: k in j.keys ==> Pos(j.env.maxDepth, k) in s.filled)
    && (forall p :: p in s.filled ==> FilledRight(j, s, p))
    && (forall w :: 0 <= w < |s.workers| ==> WorkerRight(j, s, s.workers[w]))
    && (forall y :: y !in s.filled && BothReady(j, s, y) ==> Served(s, y))
  }

  lemma MarkedUp(j: Job, p: Pos)
    requires j.Marked(p) && p.level > 0
    ensures j.Marked(p.Up())
  {
    var k :| k in j.keys && PathAt(j.env, k, p.level) == p.path;
    assert PathAt(j.env, k, p.level - 1) == p.path / 2;
  }

  lemma MarkedDown(j: Job, p: Pos)
    requires j.Marked(p) && p.level < j.env.maxDepth
    ensures j.Marked(p.Down(0)) || j.Marked(p.Down(1))
  {
    var k :| k in j.keys && PathAt(j.env, k, p.level) == p.path;
    assert PathAt(j.env, k, p.level + 1) / 2 == p.path;
  }

  /** Nothing changes below a place that is not marked. */
  lemma UnmarkedKeeps(j: Job, p: Pos)
    requires j.Valid() && p.level <= j.env.maxDepth && !j.Marked(p)
    ensures BinHash(j.env, p.level, p.path, j.was) == j.Goal(p)
  {
    BinHashFrame(j.env, p.level, p.path, j.was, j.now);
  }

  lemma SeeRight(j: Job, s: State, p: Pos)
    requires j.Valid() && Inv(j, s) && Ready(j, s, p)
    ensures See(j, s, p) == Some(j.Goal(p))
  {
    if j.Marked(p) {
      assert FilledRight(j, s, p);
    } else {
      UnmarkedKeeps(j, p);
    }
  }

  lemma LeafFilled(j: Job, s: State, p: Pos)
    requires Inv(j, s) && j.Marked(p)
    ensures p.level == j.env.maxDepth ==> p in s.filled
  {
    var k :| k in j.keys && PathAt(j.env, k, p.level) == p.path;
    assert p.level == j.env.maxDepth ==> p == Pos(j.env.maxDepth, k);
  }

  /** Looking beside a filled place shows the right hash or nothing; a slot shows nothing until
      it is filled, a node that carries the version from earlier on may be early. */
  lemma SeeSibling(j: Job, s: State, x: Pos)
    requires j.Valid() && j.NoStaleSibling() && Inv(j, s) && x in s.filled && x.level > 0
    ensures See(j, s, x.Sibling()).Some? ==> See(j, s, x.Sibling()).value == j.Goal(x.Sibling())
    ensures See(j, s, x.Sibling()).Some? && x.IsSlot() ==> Ready(j, s, x.Sibling())
    ensures Ready(j, s, x.Sibling()) ==> See(j, s, x.Sibling()).Some?
  {
    assert FilledRight(j, s, x);
    var b := x.Sibling();
    assert b.Sibling() == x;
    if Ready(j, s, b) {
      SeeRight(j, s, b);
    } else {
      LeafFilled(j, s, b);
    }
  }

  lemma StartServes(j: Job, order: seq<nat>, y: Pos)
    requires j.Valid() && forall k :: k in j.keys <==> k in order
    requires BothReady(j, Start(j, order), y)
    ensures Served(Start(j, order), y)
  {
    var s := Start(j, order);
    MarkedDown(j, y);
    var x := if j.Marked(y.Down(0)) then y.Down(0) else y.Down(1);
    assert x in s.filled;
    var w :| 0 <= w < |order| && order[w] == x.path;
    assert Serves(s.workers[w], y);
  }

  lemma StartInv(j: Job, order: seq<nat>)
    requires j.Valid() && forall k :: k in j.keys <==> k in order
    ensures Inv(j, Start(j, order))
  {
    var s := Start(j, order);
    forall p | p in s.filled ensures FilledRight(j, s, p) {
      assert PathAt(j.env, p.path, p.level) == p.path;
    }
    forall w | 0 <= w < |s.workers| ensures WorkerRight(j, s, s.workers[w]) {
      assert order[w] in j.keys;
    }
    forall y | y !in s.filled && BothReady(j, s, y) ensures Served(s, y) {
      StartServes(j, order, y);
    }
  }

  /** `t` is `s` with `y` filled, or filled again with the same hash, and worker `w` moved on. */
  ghost predicate Advances(j: Job, s: State, t: State, w: nat, y: Pos) {
    && j.Marked(y) && w < |s.workers| == |t.workers|
    && t.filled == s.filled[y := j.Goal(y)] && t.workers == s.workers[w := t.workers[w]]
  }

  lemma WorkerStays(j: Job, s: State, t: State, w: nat, y: Pos, wk: Worker)
    requires Inv(j, s) && Advances(j, s, t, w, y) && WorkerRight(j, s, wk)
    ensures WorkerRight(j, t, wk)
  {
    if wk.Look? {
      assert FilledRight(j, s, wk.pos);
    }
  }

  lemma NobodyLost(j: Job, s: State, t: State, w: nat, y: Pos, p: Pos)
    requires Inv(j, s) && Advances(j, s, t, w, y) && t.workers[w].Look? && t.workers[w].pos == y
    requires forall q :: Serves(s.workers[w], q) ==> q == y
    requires p !in t.filled && BothReady(j, t, p)
    ensures Served(t, p)
  {
    if BothReady(j, s, p) {
      var v :| 0 <= v < |s.workers| && Serves(s.workers[v], p);
      assert Serves(t.workers[v], p);
    } else {
      assert p == y.Up();
      assert Serves(t.workers[w], p);
    }
  }

  lemma FillInv(j: Job, s: State, t: State, w: nat, y: Pos)
    requires Inv(j, s) && Advances(j, s, t, w, y)
    requires t.workers[w] == Look(y, j.Goal(y)) && forall q :: Serves(s.workers[w], q) ==> q == y
    ensures Inv(j, t)
  {
    hide BothReady, Serves;
    forall p | p in t.filled ensures FilledRight(j, t, p) {
      assert p in s.filled ==> FilledRight(j, s, p);
    }
    forall v | 0 <= v < |t.workers| ensures WorkerRight(j, t, t.workers[v]) {
      if v != w { WorkerStays(j, s, t, w, y, s.workers[v]); }
    }
    forall p | p !in t.filled && BothReady(j, t, p) ensures Served(t, p) {
      NobodyLost(j, s, t, w, y, p);
    }
  }

  /** A worker moves on, or stops, without filling anything. */
  lemma MoveInv(j: Job, s: State, w: nat, next: Worker)
    requires Inv(j, s) && w < |s.workers| && WorkerRight(j, s, next)
    requires forall y :: Serves(s.workers[w], y) && y !in s.filled && BothReady(j, s, y) ==> Serves(next, y)
    ensures Inv(j, s.Move(w, next))
  {
    var t := s.Move(w, next);
    forall p | p in t.filled ensures FilledRight(j, t, p) {
      assert FilledRight(j, s, p);
    }
    forall v | 0 <= v < |t.workers| ensures WorkerRight(j, t, t.workers[v]) {
      assert v != w ==> WorkerRight(j, s, s.workers[v]);
    }
    forall y | y !in t.filled && BothReady(j, t, y) ensures Served(t, y) {
      assert BothReady(j, s, y) && Served(s, y);
      var v :| 0 <= v < |s.workers| && Serves(s.workers[v], y);
      assert Serves(t.workers[v], y);
    }
  }

  lemma LookInv(j: Job, s: State, w: nat)
    requires j.Valid() && j.NoStaleSibling() && Inv(j, s) && w < |s.workers| && s.workers[w].Look?
    ensures Inv(j, Step(j, s, w))
  {
    var x, next := s.workers[w].pos, AfterLook(j, s, s.workers[w].pos, s.workers[w].own);
    assert WorkerRight(j, s, s.workers[w]);
    LookRight(j, s, x, s.workers[w].own);
    hide See, AfterLook, Job.Marked, BothReady, WorkerRight, FilledRight;
    MoveInv(j, s, w, next);
  }

  lemma FilledIsRight(j: Job, s: State, x: Pos)
    requires Inv(j, s) && x in s.filled
    ensures j.Marked(x) && x.level <= j.env.maxDepth && s.filled[x] == j.Goal(x)
  {
    assert FilledRight(j, s, x);
  }

  /** A worker that has looked beside its place goes on only with two right hashes; if it
      stops, its parent cannot be computed yet. */
  lemma LookRight(j: Job, s: State, x: Pos, own: Digest)
    requires j.Valid() && j.NoStaleSibling() && Inv(j, s) && x in s.filled && own == s.filled[x]
    ensures WorkerRight(j, s, AfterLook(j, s, x, own))
    ensures x.level > 0 && BothReady(j, s, x.Up()) ==> Serves(AfterLook(j, s, x, own), x.Up())
  {
    hide Inv, See, Job.NoStaleSibling, Job.Valid, Job.Goal, BinHash;
    FilledIsRight(j, s, x);
    if x.level > 0 {
      SeeSibling(j, s, x);
      MarkedUp(j, x);
      assert x.Up().Down(x.path % 2) == x && x.Up().Down(1 - x.path % 2) == x.Sibling();
    }
  }

  lemma StepInv(j: Job, s: State, w: nat)
    requires j.Valid() && j.NoStaleSibling() && Inv(j, s) && w < |s.workers|
    ensures Inv(j, Step(j, s, w))
  {
    match s.workers[w]
    case Done =>
    case Look(_, _) => LookInv(j, s, w);
    case Fill(_, _, _) => FillStep(j, s, w);
    case Announce(_) => AnnounceStep(j, s, w);
  }

  lemma GoalAbove(j: Job, y: Pos)
    requires y.level < j.env.maxDepth
    ensures j.Goal(y) == j.env.hash(j.Goal(y.Down(0)), j.Goal(y.Down(1)))
  {
  }

  lemma FillStep(j: Job, s: State, w: nat)
    requires Inv(j, s) && w < |s.workers| && s.workers[w].Fill?
    ensures Inv(j, Step(j, s, w))
  {
    var y := s.workers[w].pos;
    assert WorkerRight(j, s, s.workers[w]);
    hide BothReady, Job.Marked, See, BinHash;
    GoalAbove(j, y);
    if y in s.filled {
      MoveInv(j, s, w, Done);
    } else {
      FillInv(j, s, Step(j, s, w), w, y);
    }
  }

  lemma AnnounceStep(j: Job, s: State, w: nat)
    requires j.Valid() && Inv(j, s) && w < |s.workers| && s.workers[w].Announce?
    ensures Inv(j, Step(j, s, w))
  {
    var y := s.workers[w].pos;
    assert WorkerRight(j, s, s.workers[w]);
    hide Job.Marked, See, BinHash, Job.Valid;
    GoalAbove(j, y);
    SeeRight(j, s, y.Down(0));
    SeeRight(j, s, y.Down(1));
    FillInv(j, s, Step(j, s, w), w, y);
  }

  // ---- what holds whether or not the job is safe ----

  ghost predicate WorkerOnTrack(j: Job, s: State, w: Worker) {
    match w
    case Done => true
    case Look(x, _) => x in s.filled
    case Fill(y, _, _) => y.IsSlot() && j.Marked(y) && y.level < j.env.maxDepth
    case Announce(y) => !y.IsSlot() && j.Marked(y) && y.level < j.env.maxDepth
  }

  /** All work is on marked places; nothing is said about the hashes. */
  ghost predicate OnTrack(j: Job, s: State) {
    && (forall p :: p in s.filled ==> j.Marked(p))
    && forall w :: 0 <= w < |s.workers| ==> WorkerOnTrack(j, s, s.workers[w])
  }

  lemma OnTrackStart(j: Job, order: seq<nat>)
    requires forall k :: k in order ==> k in j.keys
    ensures OnTrack(j, Start(j, order))
  {
    var s := Start(j, order);
    forall p | p in s.filled ensures j.Marked(p) {
      assert PathAt(j.env, p.path, p.level) == p.path;
    }
    forall w | 0 <= w < |s.workers| ensures WorkerOnTrack(j, s, s.workers[w]) {
      assert order[w] in j.keys;
    }
  }

  lemma OnTrackStep(j: Job, s: State, w: nat)
    requires OnTrack(j, s) && w < |s.workers|
    ensures OnTrack(j, Step(j, s, w))
  {
    hide See, Job.Marked;
    var t := Step(j, s, w);
    assert WorkerOnTrack(j, s, s.workers[w]);
    if s.workers[w].Look? && s.workers[w].pos.level > 0 {
      MarkedUp(j, s.workers[w].pos);
      MarkedIsDeep(j, s.workers[w].pos);
    }
    forall v | 0 <= v < |t.workers| ensures WorkerOnTrack(j, t, t.workers[v]) {
      assert WorkerOnTrack(j, s, s.workers[v]);
    }
  }

  lemma MarkedIsDeep(j: Job, p: Pos)
    requires j.Marked(p)
    ensures p.level <= j.env.maxDepth
  {
  }

  // ---- no work is lost, whatever the workers see ----

  /** Every place that could be computed, and is not filled yet, has a worker bound for it. */
  ghost predicate Progress(j: Job, s: State) {
    && OnTrack(j, s)
    && (forall k :: k in j.keys ==> Pos(j.env.maxDepth, k) in s.filled)
    && (forall y :: y !in s.filled && BothReady(j, s, y) ==> Served(s, y))
  }

  lemma ProgressStart(j: Job, order: seq<nat>)
    requires j.Valid() && forall k :: k in j.keys <==> k in order
    ensures Progress(j, Start(j, order))
  {
    var s := Start(j, order);
    OnTrackStart(j, order);
    forall y | y !in s.filled && BothReady(j, s, y) ensures Served(s, y) {
      StartServes(j, order, y);
    }
  }

  /** A worker that moves on still serves what it served, unless that is filled or not ready. */
  lemma ServesOn(j: Job, s: State, w: nat, y: Pos)
    requires Progress(j, s) && w < |s.workers| && Serves(s.workers[w], y)
    requires y !in Step(j, s, w).filled && BothReady(j, s, y)
    ensures Serves(Step(j, s, w).workers[w], y)
  {
    assert WorkerOnTrack(j, s, s.workers[w]);
    if s.workers[w].Look? {
      var x := s.workers[w].pos;
      assert y.Down(x.path % 2) == x && y.Down(1 - x.path % 2) == x.Sibling();
    }
  }

  lemma ProgressStep(j: Job, s: State, w: nat)
    requires Progress(j, s) && w < |s.workers|
    ensures Progress(j, Step(j, s, w))
  {
    hide WorkerOnTrack, AfterLook, See;
    var t := Step(j, s, w);
    OnTrackStep(j, s, w);
    forall y | y !in t.filled && BothReady(j, t, y) ensures Served(t, y) {
      if BothReady(j, s, y) {
        var v :| 0 <= v < |s.workers| && Serves(s.workers[v], y);
        if v == w { ServesOn(j, s, w, y); }
        assert Serves(t.workers[v], y);
      } else {
        assert Serves(t.workers[w], y);
      }
    }
  }

  lemma {:induction false} ProgressRuns(j: Job, s: State, schedule: seq<nat>)
    requires Progress(j, s) && Schedules(s, schedule)
    ensures Progress(j, Run(j, s, schedule))
    decreases |schedule|
  {
    if schedule != [] {
      ProgressStep(j, s, schedule[0]);
      ProgressRuns(j, Step(j, s, schedule[0]), schedule[1..]);
    }
  }

  /** When all workers have stopped every marked place is filled, though perhaps not rightly. */
  lemma {:induction false} AllFilled(j: Job, s: State, p: Pos)
    requires Progress(j, s) && s.Stopped() && j.Marked(p)
    ensures p in s.filled
    decreases j.env.maxDepth - p.level
  {
    if p.level < j.env.maxDepth {
      forall i | 0 <= i < 2 ensures Ready(j, s, p.Down(i)) {
        if j.Marked(p.Down(i)) { AllFilled(j, s, p.Down(i)); }
      }
      assert p !in s.filled ==> BothReady(j, s, p) && !Served(s, p);
    } else {
      var k :| k in j.keys && PathAt(j.env, k, p.level) == p.path;
      assert p == Pos(j.env.maxDepth, k);
    }
  }

  // ---- whole runs ----

  /** `t` keeps what `s` has filled. */
  ghost predicate Keeps(s: State, t: State) {
    forall p :: p in s.filled ==> p in t.filled && t.filled[p] == s.filled[p]
  }

  lemma {:induction false} RunInv(j: Job, s: State, schedule: seq<nat>)
    requires j.Valid() && j.NoStaleSibling() && Inv(j, s) && Schedules(s, schedule)
    ensures Inv(j, Run(j, s, schedule)) && Keeps(s, Run(j, s, schedule))
    decreases |schedule|
  {
    if schedule != [] {
      StepInv(j, s, schedule[0]);
      StepKeeps(j, s, schedule[0]);
      RunInv(j, Step(j, s, schedule[0]), schedule[1..]);
    }
  }

  lemma StepKeeps(j: Job, s: State, w: nat)
    requires j.Valid() && j.NoStaleSibling() && Inv(j, s) && w < |s.workers|
    ensures Keeps(s, Step(j, s, w))
  {
    StepInv(j, s, w);
    forall p | p in s.filled ensures Step(j, s, w).filled[p] == s.filled[p] {
      assert FilledRight(j, s, p) && FilledRight(j, Step(j, s, w), p);
    }
  }

  /** No work is lost: when all workers have stopped, every marked place is filled. */
  lemma {:induction false} NothingLeft(j: Job, s: State, p: Pos)
    requires j.Valid() && Inv(j, s) && s.Stopped() && j.Marked(p)
    ensures p in s.filled && s.filled[p] == j.Goal(p)
    decreases j.env.maxDepth - p.level
  {
    if p.level < j.env.maxDepth {
      forall i | 0 <= i < 2 ensures Ready(j, s, p.Down(i)) {
        if j.Marked(p.Down(i)) { NothingLeft(j, s, p.Down(i)); }
      }
      assert BothReady(j, s, p) && !Served(s, p);
    } else {
      LeafFilled(j, s, p);
    }
    assert FilledRight(j, s, p);
  }

  /** Whatever the order of the workers and of their steps: once all have stopped, exactly the
      marked places are filled, each with the hash of its subtree in the new snapshot. */
  lemma MultiSetIsRight(j: Job, order: seq<nat>, schedule: seq<nat>)
    requires j.Valid() && j.NoStaleSibling() && (forall k :: k in j.keys <==> k in order)
    requires Schedules(Start(j, order), schedule) && Run(j, Start(j, order), schedule).Stopped()
    ensures var filled := Run(j, Start(j, order), schedule).filled;
      && (forall p :: p in filled <==> j.Marked(p))
      && (forall p :: p in filled ==> filled[p] == j.Goal(p))
      && Pos(0, 0) in filled && filled[Pos(0, 0)] == BinHash(j.env, 0, 0, j.now)
  {
    StartInv(j, order);
    RunInv(j, Start(j, order), schedule);
    var t := Run(j, Start(j, order), schedule);
    forall p ensures p in t.filled <==> j.Marked(p) {
      if j.Marked(p) { NothingLeft(j, t, p); }
      if p in t.filled { assert FilledRight(j, t, p); }
    }
    forall p | p in t.filled ensures t.filled[p] == j.Goal(p) {
      assert FilledRight(j, t, p);
    }
    var k :| k in j.keys;
    assert j.Marked(Pos(0, 0));
  }

  /** The steps a worker has at most still to make. */
  function Left(w: Worker): nat {
    match w
    case Done => 0
    case Look(x, _) => 2 * x.level + 1
    case Fill(y, _, _) => 2 * y.level + 2
    case Announce(y) => 2 * y.level + 2
  }

  function TotalLeft(ws: seq<Worker>): nat {
    if ws == [] then 0 else Left(ws[0]) + TotalLeft(ws[1..])
  }

  lemma {:induction false} OneMoves(ws: seq<Worker>, w: nat, next: Worker)
    requires w < |ws|
    ensures TotalLeft(ws[w := next]) == TotalLeft(ws) - Left(ws[w]) + Left(next)
  {
    if w > 0 {
      assert ws[w := next][1..] == ws[1..][w - 1 := next];
      OneMoves(ws[1..], w - 1, next);
    }
  }

  /** No worker waits for another: every step of a worker that has not stopped brings the
      end nearer, in every state. */
  lemma StepAdvances(j: Job, s: State, w: nat)
    requires w < |s.workers|
    ensures if s.workers[w].Done? then Step(j, s, w) == s
            else TotalLeft(Step(j, s, w).workers) < TotalLeft(s.workers)
  {
    var next := Step(j, s, w).workers[w];
    OneMoves(s.workers, w, next);
  }

  /** Every step of the run is made by a worker that has not stopped. */
  ghost predicate Busy(j: Job, s: State, schedule: seq<nat>)
    requires Schedules(s, schedule)
    decreases |schedule|
  {
    schedule == [] || (!s.workers[schedule[0]].Done? && Busy(j, Step(j, s, schedule[0]), schedule[1..]))
  }

  lemma {:induction false} RunStops(j: Job, s: State, schedule: seq<nat>)
    requires Schedules(s, schedule) && Busy(j, s, schedule)
    ensures |schedule| + TotalLeft(Run(j, s, schedule).workers) <= TotalLeft(s.workers)
    decreases |schedule|
  {
    if schedule != [] {
      StepAdvances(j, s, schedule[0]);
      RunStops(j, Step(j, s, schedule[0]), schedule[1..]);
    }
  }

  lemma {:induction false} StartLeft(ws: seq<Worker>, depth: nat)
    requires forall w :: 0 <= w < |ws| ==> ws[w].Look? && ws[w].pos.level == depth
    ensures TotalLeft(ws) == |ws| * (2 * depth + 1)
  {
    if ws != [] {
      StartLeft(ws[1..], depth);
      assert |ws| * (2 * depth + 1) == (2 * depth + 1) + |ws[1..]| * (2 * depth + 1);
    }
  }

  /** Every run is over after at most 2 * maxDepth + 1 steps for each worker. */
  lemma MultiSetStops(j: Job, order: seq<nat>, schedule: seq<nat>)
    requires Schedules(Start(j, order), schedule) && Busy(j, Start(j, order), schedule)
    ensures |schedule| <= |order| * (2 * j.env.maxDepth + 1)
  {
    RunStops(j, Start(j, order), schedule);
    StartLeft(Start(j, order).workers, j.env.maxDepth);
  }

  /** From every state the workers can be run to the end. */
  lemma {:induction false} CanFinish(j: Job, s: State) returns (schedule: seq<nat>)
    ensures Schedules(s, schedule) && Run(j, s, schedule).Stopped()
    decreases TotalLeft(s.workers)
  {
    if s.Stopped() {
      schedule := [];
    } else {
      var w :| 0 <= w < |s.workers| && !s.workers[w].Done?;
      StepAdvances(j, s, w);
      var rest := CanFinish(j, Step(j, s, w));
      schedule := [w] + rest;
      assert schedule[1..] == rest;
    }
  }

  /** No leaf has more than one worker. */
  ghost predicate OneEach(order: seq<nat>) {
    forall i, k :: 0 <= i < k < |order| ==> order[i] != order[k]
  }

  /** Exactly one worker for each leaf. */
  ghost predicate Lists(order: seq<nat>, keys: set<nat>) {
    OneEach(order) && forall k :: k in keys <==> k in order
  }

  /** A complete run: one worker for each leaf, and all have stopped. */
  ghost predicate Completes(j: Job, order: seq<nat>, schedule: seq<nat>) {
    && Lists(order, j.keys)
    && Schedules(Start(j, order), schedule) && Run(j, Start(j, order), schedule).Stopped()
  }

  lemma {:induction false} RunAppend(j: Job, s: State, a: seq<nat>, b: seq<nat>)
    requires Schedules(s, a) && Schedules(s, b)
    ensures Run(j, s, a + b) == Run(j, Run(j, s, a), b)
    decreases |a|
  {
    if a == [] {
      assert a + b == b;
    } else {
      assert (a + b)[1..] == a[1..] + b;
      RunAppend(j, Step(j, s, a[0]), a[1..], b);
    }
  }

  /** Step `i` of the run fills the place `p`. */
  ghost predicate FillsAt(j: Job, s: State, schedule: seq<nat>, i: nat, p: Pos)
    requires Schedules(s, schedule) && i < |schedule|
  {
    p !in Run(j, s, schedule[..i]).filled && p in Run(j, s, schedule[..i + 1]).filled
  }

  /** The state after some steps of a run keeps what the state before had. */
  lemma RunKeeps(j: Job, s: State, schedule: seq<nat>, i: nat, k: nat)
    requires j.Valid() && j.NoStaleSibling() && Inv(j, s) && Schedules(s, schedule) && i <= k <= |schedule|
    ensures Keeps(Run(j, s, schedule[..i]), Run(j, s, schedule[..k]))
  {
    assert schedule[..k] == schedule[..i] + schedule[i..k];
    RunAppend(j, s, schedule[..i], schedule[i..k]);
    RunInv(j, s, schedule[..i]);
    RunInv(j, Run(j, s, schedule[..i]), schedule[i..k]);
  }

  /** In a complete run every slot above the leaves is filled by exactly one step. */
  lemma FilledOnce(j: Job, order: seq<nat>, schedule: seq<nat>, p: Pos) returns (i: nat)
    requires j.Valid() && j.NoStaleSibling() && (forall k :: k in j.keys <==> k in order)
    requires Schedules(Start(j, order), schedule) && Run(j, Start(j, order), schedule).Stopped()
    requires j.Marked(p) && p.level < j.env.maxDepth
    ensures i < |schedule| && FillsAt(j, Start(j, order), schedule, i, p)
    ensures forall k :: 0 <= k < |schedule| && FillsAt(j, Start(j, order), schedule, k, p) ==> k == i
  {
    var s := Start(j, order);
    StartInv(j, order);
    MultiSetIsRight(j, order, schedule);
    assert schedule[..|schedule|] == schedule && schedule[..0] == [];
    i := FirstFill(j, s, schedule, |schedule|, p);
    forall k | 0 <= k < |schedule| && FillsAt(j, s, schedule, k, p) ensures k == i {
      if k < i { RunKeeps(j, s, schedule, k + 1, i); }
      if i < k { RunKeeps(j, s, schedule, i + 1, k); }
    }
  }

  lemma FirstFill(j: Job, s: State, schedule: seq<nat>, n: nat, p: Pos) returns (i: nat)
    requires Schedules(s, schedule) && n <= |schedule|
    requires p !in Run(j, s, schedule[..0]).filled && p in Run(j, s, schedule[..n]).filled
    ensures i < n && FillsAt(j, s, schedule, i, p)
  {
    i := n - 1;
    if p in Run(j, s, schedule[..i]).filled {
      i := FirstFill(j, s, schedule, i, p);
    }
  }
}
