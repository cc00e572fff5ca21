/** When setting many leaves goes wrong: a node that carries the pending version from earlier on
    looks finished to a worker beside it, whatever is still to be set below it. */
module StaleSibling {
  import opened MerkleSpec
  import opened MultiSetProtocol
  import opened Proofs

  ghost predicate BelowPlace(env: Env, k: nat, p: Pos) {
    PathAt(env, k, p.level) == p.path
  }

  /** Nodes that carry the pending version from before show their old hash. */
  ghost predicate OldStamps(j: Job) {
    forall p :: p in j.stamped ==> p.level <= j.env.maxDepth && j.stamped[p] == BinHash(j.env, p.level, p.path, j.was)
  }

  /** The stored node `p` has to be computed anew, and so has its sibling; but `p` carries the
      pending version already, with the hash from before, and its hash is going to change. */
  ghost predicate LooksFinished(j: Job, p: Pos) {
    && j.Valid() && OldStamps(j) && p in j.stamped && 0 < p.level < j.env.maxDepth
    && j.Marked(p) && j.Marked(p.Sibling()) && j.stamped[p] != j.Goal(p)
  }

  /** If the job is not safe, it is because of such a node. */
  lemma SomeLooksFinished(j: Job) returns (p: Pos)
    requires j.Valid() && OldStamps(j) && !j.NoStaleSibling()
    ensures LooksFinished(j, p)
  {
    p :| p in j.stamped && j.Marked(p) && p.level != j.env.maxDepth && j.Marked(p.Sibling()) && j.stamped[p] != j.Goal(p);
    if p.level == 0 {
      OnlyRoot(j, p);
      OnlyRoot(j, p.Sibling());
    }
  }

  lemma OnlyRoot(j: Job, p: Pos)
    requires j.Valid() && j.Marked(p) && p.level == 0
    ensures p.path == 0
  {
  }

  /** The snapshot in which nothing has been set below `p`. */
  ghost function WithoutLeaves(j: Job, p: Pos): LeafMap {
    map k | k in j.was.Keys + j.now.Keys && (if BelowPlace(j.env, k, p) then k in j.was else k in j.now)
      :: if BelowPlace(j.env, k, p) then j.was[k] else j.now[k]
  }

  /** The same job with nothing to be set below `p`. */
  ghost function Without(j: Job, p: Pos): Job {
    Job(j.env, j.was, WithoutLeaves(j, p), (set k | k in j.keys && !BelowPlace(j.env, k, p)), j.stamped - {p})
  }

  lemma {:induction false} SameAbove(env: Env, a: nat, b: nat, low: nat, high: nat)
    requires high <= low <= env.maxDepth && PathAt(env, a, low) == PathAt(env, b, low)
    ensures PathAt(env, a, high) == PathAt(env, b, high)
    decreases low - high
  {
    if high < low { SameAbove(env, a, b, low - 1, high); }
  }

  lemma WithoutIsValid(j: Job, p: Pos)
    requires LooksFinished(j, p)
    ensures Without(j, p).Valid() && OldStamps(Without(j, p)) && Without(j, p).keys < j.keys
  {
    var k := SiblingKey(j, p);
    var below :| below in j.keys && PathAt(j.env, below, p.level) == p.path;
    assert below !in Without(j, p).keys;
  }

  /** There is a key below the sibling, and it is not below `p`. */
  lemma SiblingKey(j: Job, p: Pos) returns (k: nat)
    requires LooksFinished(j, p)
    ensures k in Without(j, p).keys && PathAt(j.env, k, p.level - 1) == p.path / 2
  {
    k :| k in j.keys && PathAt(j.env, k, p.level) == p.Sibling().path;
  }

  /** Beside the places the smaller job works on, the two jobs mark the same. */
  lemma SameMarks(j: Job, p: Pos, q: Pos)
    requires LooksFinished(j, p) && 0 < q.level <= j.env.maxDepth && Without(j, p).Marked(q.Up())
    ensures q != p ==> (j.Marked(q) <==> Without(j, p).Marked(q))
    ensures !Without(j, p).Marked(p)
    ensures forall k :: k in j.keys && BelowPlace(j.env, k, p) && q == Pos(j.env.maxDepth, k) ==> q == p
  {
    var small := Without(j, p);
    var k0 :| k0 in small.keys && PathAt(j.env, k0, q.level - 1) == q.path / 2;
    forall k | k in j.keys && BelowPlace(j.env, k, p) && PathAt(j.env, k, q.level) == q.path
      ensures q == p || small.Marked(q)
      ensures q.level <= p.level
    {
      if q.level > p.level {
        SameAbove(j.env, k, k0, q.level - 1, p.level);
      } else if q.level < p.level {
        var k1 := SiblingKey(j, p);
        SameAbove(j.env, k, k1, p.level - 1, q.level);
      }
    }
    if j.Marked(q) && q != p {
      var k :| k in j.keys && PathAt(j.env, k, q.level) == q.path;
      if !BelowPlace(j.env, k, p) { assert k in small.keys; }
    }
    if small.Marked(q) {
      var k :| k in small.keys && PathAt(j.env, k, q.level) == q.path;
      assert k in j.keys;
    }
  }

  // ---- the smaller job, step by step ----

  /** The leaves below `p`, which are set but wait for their workers. */
  ghost function Waiting(j: Job, p: Pos): map<Pos, Digest> {
    map k | k in j.keys && BelowPlace(j.env, k, p) :: Pos(j.env.maxDepth, k) := LeafHash(j.env, j.now, k)
  }

  /** The first workers have made the same steps in both jobs. */
  ghost predicate SameSoFar(j: Job, p: Pos, s: State, small: State) {
    && |small.workers| <= |s.workers| && s.workers[..|small.workers|] == small.workers
    && s.filled == small.filled + Waiting(j, p)
  }

  /** A worker of the smaller job sees the same in both. */
  lemma SameView(j: Job, p: Pos, s: State, small: State, q: Pos)
    requires LooksFinished(j, p) && SameSoFar(j, p, s, small) && OnTrack(Without(j, p), small)
    requires 0 < q.level && Without(j, p).Marked(q.Up())
    ensures See(j, s, q) == See(Without(j, p), small, q)
    ensures q in s.filled <==> q in small.filled
    ensures q in small.filled ==> s.filled[q] == small.filled[q]
  {
    if q.level <= j.env.maxDepth {
      SameMarks(j, p, q);
      if q == p {
        assert q in small.filled ==> Without(j, p).Marked(q);
      }
    } else {
      assert q in small.filled ==> Without(j, p).Marked(q);
    }
  }

  lemma SameStep(j: Job, p: Pos, s: State, small: State, w: nat)
    requires LooksFinished(j, p) && SameSoFar(j, p, s, small) && OnTrack(Without(j, p), small)
    requires w < |small.workers|
    ensures SameSoFar(j, p, Step(j, s, w), Step(Without(j, p), small, w))
  {
    hide LooksFinished, See, Job.Marked, Waiting, AfterLook;
    var wk := small.workers[w];
    assert WorkerOnTrack(Without(j, p), small, wk) && s.workers[w] == wk;
    match wk
    case Done =>
    case Look(x, own) =>
      SameLook(j, p, s, small, x, own);
    case Fill(y, _, _) => SameFill(j, p, s, small, y);
    case Announce(y) => SameFill(j, p, s, small, y);
  }

  lemma SameLook(j: Job, p: Pos, s: State, small: State, x: Pos, own: Digest)
    requires LooksFinished(j, p) && SameSoFar(j, p, s, small) && OnTrack(Without(j, p), small)
    requires x in small.filled && Without(j, p).Marked(x)
    ensures AfterLook(j, s, x, own) == AfterLook(Without(j, p), small, x, own)
  {
    hide OnTrack, SameSoFar, LooksFinished, See, Job.Marked;
    if x.level > 0 {
      MarkedUp(Without(j, p), x);
      SameView(j, p, s, small, x);
      SameView(j, p, s, small, x.Sibling());
    }
  }

  lemma SameFill(j: Job, p: Pos, s: State, small: State, y: Pos)
    requires LooksFinished(j, p) && SameSoFar(j, p, s, small) && OnTrack(Without(j, p), small)
    requires Without(j, p).Marked(y) && y.level < j.env.maxDepth
    ensures y.IsSlot() ==> (y in s.filled <==> y in small.filled)
    ensures y !in Waiting(j, p)
    ensures forall i :: 0 <= i < 2 ==> See(j, s, y.Down(i)) == See(Without(j, p), small, y.Down(i))
  {
    hide OnTrack, SameSoFar, LooksFinished, See, Job.Marked;
    if y.IsSlot() {
      MarkedUp(Without(j, p), y);
      SameView(j, p, s, small, y);
    }
    forall i | 0 <= i < 2 ensures See(j, s, y.Down(i)) == See(Without(j, p), small, y.Down(i)) {
      assert y.Down(i).Up() == y;
      SameView(j, p, s, small, y.Down(i));
    }
  }

  lemma {:induction false} SameRun(j: Job, p: Pos, s: State, small: State, schedule: seq<nat>)
    requires LooksFinished(j, p) && SameSoFar(j, p, s, small) && OnTrack(Without(j, p), small)
    requires Schedules(small, schedule)
    ensures Schedules(s, schedule) && SameSoFar(j, p, Run(j, s, schedule), Run(Without(j, p), small, schedule))
    ensures OnTrack(Without(j, p), Run(Without(j, p), small, schedule))
    decreases |schedule|
  {
    if schedule != [] {
      SameStep(j, p, s, small, schedule[0]);
      OnTrackStep(Without(j, p), small, schedule[0]);
      SameRun(j, p, Step(j, s, schedule[0]), Step(Without(j, p), small, schedule[0]), schedule[1..]);
    }
  }

  // ---- the root stays as it is ----

  /** The root has been published as `h`, from two slots that are filled for good. */
  ghost predicate RootSettled(j: Job, s: State, h: Digest) {
    && (forall i :: 0 <= i < 2 ==> j.Marked(Pos(1, i)) ==> Pos(1, i) in s.filled)
    && Pos(0, 0) in s.filled && s.filled[Pos(0, 0)] == h
    && h == j.env.hash(Raw(j.env, See(j, s, Pos(1, 0))), Raw(j.env, See(j, s, Pos(1, 1))))
    && forall w :: 0 <= w < |s.workers| ==> s.workers[w].Announce? ==> !s.workers[w].pos.IsSlot()
  }

  lemma RootStays(j: Job, s: State, h: Digest, w: nat)
    requires RootSettled(j, s, h) && w < |s.workers|
    ensures RootSettled(j, Step(j, s, w), h)
  {
    assert Pos(0, 0).Down(0) == Pos(1, 0) && Pos(0, 0).Down(1) == Pos(1, 1);
  }

  lemma {:induction false} RootRuns(j: Job, s: State, h: Digest, schedule: seq<nat>)
    requires RootSettled(j, s, h) && Schedules(s, schedule)
    ensures RootSettled(j, Run(j, s, schedule), h)
    decreases |schedule|
  {
    if schedule != [] {
      RootStays(j, s, h, schedule[0]);
      RootRuns(j, Step(j, s, schedule[0]), h, schedule[1..]);
    }
  }

  ghost function Listing(keys: set<nat>): (order: seq<nat>)
    ensures Lists(order, keys)
    decreases keys
  {
    if keys == {} then []
    else
      var k :| k in keys;
      [k] + Listing(keys - {k})
  }

  /** The root of the smaller job is the root of the whole job. */
  lemma SettledInBoth(j: Job, p: Pos, s: State, small: State, h: Digest)
    requires LooksFinished(j, p) && SameSoFar(j, p, s, small) && OnTrack(Without(j, p), small)
    requires RootSettled(Without(j, p), small, h)
    requires forall w :: |small.workers| <= w < |s.workers| ==> s.workers[w].Look?
    ensures RootSettled(j, s, h)
  {
    hide OnTrack, LooksFinished, See, Waiting, Job.Marked;
    RootIsMarked(j, p, small);
    SettledSlot(j, p, s, small, 0);
    SettledSlot(j, p, s, small, 1);
    RootNotWaiting(j, p);
    forall w | 0 <= w < |s.workers| ensures s.workers[w].Announce? ==> !s.workers[w].pos.IsSlot() {
      assert w < |small.workers| ==> s.workers[w] == small.workers[w];
    }
  }

  lemma RootNotWaiting(j: Job, p: Pos)
    requires LooksFinished(j, p)
    ensures Pos(0, 0) !in Waiting(j, p)
  {
  }

  lemma RootIsMarked(j: Job, p: Pos, small: State)
    requires LooksFinished(j, p) && OnTrack(Without(j, p), small) && Pos(0, 0) in small.filled
    ensures j.env.maxDepth > 1 && p.level != 1 && Without(j, p).Marked(Pos(0, 0))
  {
  }

  lemma SettledSlot(j: Job, p: Pos, s: State, small: State, i: nat)
    requires LooksFinished(j, p) && SameSoFar(j, p, s, small) && OnTrack(Without(j, p), small)
    requires i < 2 && Without(j, p).Marked(Pos(0, 0)) && j.env.maxDepth > 1 && p.level != 1
    requires Without(j, p).Marked(Pos(1, i)) ==> Pos(1, i) in small.filled
    ensures See(j, s, Pos(1, i)) == See(Without(j, p), small, Pos(1, i))
    ensures j.Marked(Pos(1, i)) ==> Pos(1, i) in s.filled
  {
    hide LooksFinished, OnTrack, Waiting, SameSoFar, See;
    var q := Pos(1, i);
    assert q.Up() == Pos(0, 0);
    SameMarks(j, p, q);
    SameView(j, p, s, small, q);
  }

  /** Workers that are not scheduled stay where they are. */
  lemma {:induction false} OthersWait(j: Job, s: State, schedule: seq<nat>, n: nat)
    requires Schedules(s, schedule) && forall i :: 0 <= i < |schedule| ==> schedule[i] < n
    ensures forall w :: n <= w < |s.workers| ==> Run(j, s, schedule).workers[w] == s.workers[w]
    decreases |schedule|
  {
    if schedule != [] { OthersWait(j, Step(j, s, schedule[0]), schedule[1..], n); }
  }

  lemma StartsSame(j: Job, p: Pos, first: seq<nat>, others: seq<nat>)
    requires LooksFinished(j, p) && forall k :: k in first ==> k in Without(j, p).keys
    ensures SameSoFar(j, p, Start(j, first + others), Start(Without(j, p), first))
  {
  }

  /** A run of the smaller job, made by the first workers of the whole job. */
  lemma LiftRun(j: Job, p: Pos, first: seq<nat>, others: seq<nat>, schedule: seq<nat>, h: Digest)
    requires LooksFinished(j, p) && forall k :: k in first ==> k in Without(j, p).keys
    requires Schedules(Start(Without(j, p), first), schedule)
    requires RootSettled(Without(j, p), Run(Without(j, p), Start(Without(j, p), first), schedule), h)
    ensures Schedules(Start(j, first + others), schedule)
    ensures RootSettled(j, Run(j, Start(j, first + others), schedule), h)
  {
    hide LooksFinished, Job.Marked, RootSettled, OnTrack, See;
    var j0, s, small := Without(j, p), Start(j, first + others), Start(Without(j, p), first);
    OnTrackStart(j0, first);
    StartsSame(j, p, first, others);
    SameRun(j, p, s, small, schedule);
    OthersWait(j, s, schedule, |first|);
    SettledInBoth(j, p, Run(j, s, schedule), Run(j0, small, schedule), h);
  }

  /** `lost` is the new snapshot with some updates missing: each leaf has its new value or its
      old one, and if the job is not safe, some node that looked finished has none of the
      updates below it. */
  ghost predicate Lost(j: Job, lost: LeafMap) {
    && (forall k: nat :: LeafHash(j.env, lost, k) == LeafHash(j.env, j.now, k) || LeafHash(j.env, lost, k) == LeafHash(j.env, j.was, k))
    && (!j.NoStaleSibling() ==> exists p :: LooksFinished(j, p) && NothingSetBelow(j, lost, p))
  }

  ghost predicate NothingSetBelow(j: Job, lost: LeafMap, p: Pos) {
    forall k: nat :: BelowPlace(j.env, k, p) ==> LeafHash(j.env, lost, k) == LeafHash(j.env, j.was, k)
  }

  lemma LostStillLost(j: Job, p: Pos, lost: LeafMap)
    requires LooksFinished(j, p) && Lost(Without(j, p), lost)
    ensures Lost(j, lost)
  {
    var j0 := Without(j, p);
    forall k: nat
      ensures LeafHash(j.env, j0.now, k) == if BelowPlace(j.env, k, p) then LeafHash(j.env, j.was, k) else LeafHash(j.env, j.now, k)
    {
    }
    assert NothingSetBelow(j, lost, p);
  }

  /** The run of a safe job. */
  lemma SafeRun(j: Job, order: seq<nat>) returns (schedule: seq<nat>)
    requires j.Valid() && j.NoStaleSibling() && forall k :: k in j.keys <==> k in order
    ensures Schedules(Start(j, order), schedule)
    ensures RootSettled(j, Run(j, Start(j, order), schedule), BinHash(j.env, 0, 0, j.now))
  {
    hide BothReady, See, Job.NoStaleSibling;
    var s := Start(j, order);
    StartInv(j, order);
    schedule := CanFinish(j, s);
    RunInv(j, s, schedule);
    var t := Run(j, s, schedule);
    assert j.Marked(Pos(0, 0)) by { var k :| k in j.keys; }
    NothingLeft(j, t, Pos(0, 0));
    forall i | 0 <= i < 2
      ensures See(j, t, Pos(1, i)) == Some(j.Goal(Pos(1, i))) && (j.Marked(Pos(1, i)) ==> Pos(1, i) in t.filled)
    {
      if j.Marked(Pos(1, i)) { NothingLeft(j, t, Pos(1, i)); }
      SeeRight(j, t, Pos(1, i));
    }
  }

  lemma BothList(a: seq<nat>, some: set<nat>, b: seq<nat>, all: set<nat>)
    requires Lists(a, some) && some <= all && Lists(b, all - some)
    ensures Lists(a + b, all)
  {
    forall i, k | 0 <= i < k < |a + b| ensures (a + b)[i] != (a + b)[k] {
      assert i < |a| ==> a[i] in some;
      assert k >= |a| ==> b[k - |a|] in all - some;
    }
  }

  /** Some run of the job settles on a root with updates missing, if the job is not safe. */
  lemma LostRun(j: Job) returns (order: seq<nat>, schedule: seq<nat>, lost: LeafMap)
    requires j.Valid() && OldStamps(j)
    ensures Lists(order, j.keys) && Schedules(Start(j, order), schedule)
    ensures RootSettled(j, Run(j, Start(j, order), schedule), BinHash(j.env, 0, 0, lost))
    ensures Lost(j, lost)
    decreases j.keys
  {
    hide RootSettled;
    if j.NoStaleSibling() {
      order, lost := Listing(j.keys), j.now;
      schedule := SafeRun(j, order);
    } else {
      var p := SomeLooksFinished(j);
      WithoutIsValid(j, p);
      var first;
      first, schedule, lost := LostRun(Without(j, p));
      var others := Listing(j.keys - Without(j, p).keys);
      order := first + others;
      BothList(first, Without(j, p).keys, others, j.keys);
      LiftRun(j, p, first, others, schedule, BinHash(j.env, 0, 0, lost));
      LostStillLost(j, p, lost);
    }
  }

  // ---- the condition is exact ----

  /** Below a node whose hash changes some leaf changes, and it is one of those set. */
  lemma SomeLeafChanges(j: Job, p: Pos) returns (k: nat)
    requires LooksFinished(j, p)
    ensures k in j.keys && BelowPlace(j.env, k, p) && LeafHash(j.env, j.was, k) != LeafHash(j.env, j.now, k)
  {
    if forall k: nat :: BelowPlace(j.env, k, p) ==> LeafHash(j.env, j.was, k) == LeafHash(j.env, j.now, k) {
      BinHashFrame(j.env, p.level, p.path, j.was, j.now);
    }
    k :| BelowPlace(j.env, k, p) && LeafHash(j.env, j.was, k) != LeafHash(j.env, j.now, k);
  }

  /** With an injective hash a root with those updates missing is a wrong root. */
  lemma LostIsWrong(j: Job, p: Pos, lost: LeafMap)
    requires Injective(j.env) && LooksFinished(j, p) && NothingSetBelow(j, lost, p)
    ensures BinHash(j.env, 0, 0, lost) != BinHash(j.env, 0, 0, j.now)
  {
    var k := SomeLeafChanges(j, p);
    assert LeafHash(j.env, lost, k) == LeafHash(j.env, j.was, k);
    if BinHash(j.env, 0, 0, lost) == BinHash(j.env, 0, 0, j.now) {
      HashFixesLeaves(j.env, 0, 0, lost, j.now, k);
    }
  }

  /** A complete run that ends with the root hash `h`. */
  ghost predicate EndsWith(j: Job, order: seq<nat>, schedule: seq<nat>, h: Digest) {
    && Completes(j, order, schedule) && Pos(0, 0) in Run(j, Start(j, order), schedule).filled
    && h == Run(j, Start(j, order), schedule).filled[Pos(0, 0)]
  }

  /** One that ends with the root of the new snapshot. */
  ghost predicate EndsRight(j: Job, order: seq<nat>, schedule: seq<nat>) {
    EndsWith(j, order, schedule, BinHash(j.env, 0, 0, j.now))
  }

  /** A lost update: if the job is not safe, some complete run of all workers ends with a root
      in which nothing has been set below some node that looked finished, though a leaf changes
      there. With an injective hash this is not the root of the new snapshot. */
  lemma UpdatesGetLost(j: Job) returns (order: seq<nat>, schedule: seq<nat>, lost: LeafMap)
    requires j.Valid() && OldStamps(j) && !j.NoStaleSibling()
    ensures EndsWith(j, order, schedule, BinHash(j.env, 0, 0, lost))
    ensures exists p :: LooksFinished(j, p) && NothingSetBelow(j, lost, p)
    ensures Injective(j.env) ==> BinHash(j.env, 0, 0, lost) != BinHash(j.env, 0, 0, j.now)
  {
    hide LooksFinished, See, NothingSetBelow, Injective;
    var early;
    order, early, lost := LostRun(j);
    var t := Run(j, Start(j, order), early);
    var late := CanFinish(j, t);
    RootRuns(j, t, BinHash(j.env, 0, 0, lost), late);
    schedule := early + late;
    RunAppend(j, Start(j, order), early, late);
    if Injective(j.env) {
      var p :| LooksFinished(j, p) && NothingSetBelow(j, lost, p);
      LostIsWrong(j, p, lost);
    }
  }

  /** With an injective hash, every complete run ends with the root of the new snapshot if and
      only if no stale sibling is in the way. */
  lemma RightExactly(j: Job)
    requires j.Valid() && OldStamps(j) && Injective(j.env)
    ensures (forall order, schedule {:trigger Completes(j, order, schedule)} :: Completes(j, order, schedule) ==> EndsRight(j, order, schedule))
      <==> j.NoStaleSibling()
  {
    if j.NoStaleSibling() {
      forall order, schedule | Completes(j, order, schedule) ensures EndsRight(j, order, schedule) {
        MultiSetIsRight(j, order, schedule);
      }
    } else {
      var order, schedule, lost := UpdatesGetLost(j);
      assert Completes(j, order, schedule) && !EndsRight(j, order, schedule);
    }
  }
}
