/** When to release memory: tree sizes are recorded in ten stages, and once the tree has grown
    past the threshold the scheduler picks the version whose nodes may go. */
module GcScheduler {

  const WORD: nat := 0x1_0000_0000_0000_0000

  /** Subtraction of 64-bit sizes wraps around. */
  function Minus(a: nat, b: nat): (r: nat)
    requires a < WORD && b < WORD
    ensures a >= b ==> r == a - b
    ensures a < b ==> r == WORD + a - b
  {
    (WORD + a - b) % WORD
  }

  /** Stage i holds sizes of its tenth of the threshold, the last stage all larger ones. */
  ghost predicate InStage(segment: nat, i: nat, size: nat) {
    i * segment <= size && (i < 9 ==> size < (i + 1) * segment)
  }

  ghost predicate StagesOK(segment: nat, versions: seq<nat>, sizes: seq<nat>) {
    && |versions| == |sizes| == 10
    && (forall i :: 0 <= i < 10 ==> (sizes[i] == 0 <==> versions[i] == 0) && sizes[i] < WORD)
    && forall i :: 0 <= i < 10 && sizes[i] > 0 ==> InStage(segment, i, sizes[i])
  }

  lemma StageOf(segment: nat, size: nat)
    requires segment > 0
    ensures InStage(segment, if size / segment > 9 then 9 else size / segment, size)
  {
    assert size == size / segment * segment + size % segment;
    if size / segment > 9 {
      assert 9 * segment <= size / segment * segment;
    }
  }

  /** Recorded sizes increase from stage to stage. */
  lemma StagesAscend(segment: nat, versions: seq<nat>, sizes: seq<nat>, i: nat, j: nat)
    requires StagesOK(segment, versions, sizes) && i < j < 10 && sizes[i] > 0 && sizes[j] > 0
    ensures sizes[i] < sizes[j]
  {
    assert InStage(segment, i, sizes[i]) && InStage(segment, j, sizes[j]);
    assert (i + 1) * segment <= j * segment;
  }

  /** Releasing what was recorded at stage i brings the tree below the threshold. */
  ghost predicate Relieves(sizes: seq<nat>, currentSize: nat, threshold: nat, i: nat)
    requires i < |sizes| && currentSize < WORD && sizes[i] < WORD
  {
    Minus(currentSize, sizes[i]) < threshold
  }

  ghost predicate Least(segment: nat, versions: seq<nat>, sizes: seq<nat>, currentSize: nat, threshold: nat, k: nat)
    requires StagesOK(segment, versions, sizes) && currentSize < WORD
  {
    && k < 10 && sizes[k] > 0 && Relieves(sizes, currentSize, threshold, k)
    && forall j :: 0 <= j < 10 && sizes[j] > 0 && Relieves(sizes, currentSize, threshold, j) ==> sizes[k] <= sizes[j]
  }

  ghost predicate Largest(sizes: seq<nat>, k: nat)
  {
    k < |sizes| && sizes[k] > 0 && forall j :: 0 <= j < |sizes| ==> sizes[j] <= sizes[k]
  }

  /** Stage k is the one to pick. */
  ghost predicate Picked(segment: nat, versions: seq<nat>, sizes: seq<nat>, currentSize: nat, threshold: nat, k: nat)
    requires StagesOK(segment, versions, sizes) && currentSize < WORD
  {
    || Least(segment, versions, sizes, currentSize, threshold, k)
    || (Largest(sizes, k) && forall j :: 0 <= j < 10 && sizes[j] > 0 ==> !Relieves(sizes, currentSize, threshold, j))
  }

  /** The stages with a size up to that of stage k have been forgotten, and no others: those keep
      their size and their version. */
  ghost predicate Forgotten(versions: seq<nat>, sizes: seq<nat>, versions': seq<nat>, sizes': seq<nat>, k: nat)
    requires k < |sizes| == |versions| == |sizes'| == |versions'|
  {
    && (forall i :: 0 <= i < |sizes| ==> sizes'[i] == if sizes[i] <= sizes[k] then 0 else sizes[i])
    && (forall i :: 0 <= i < |sizes| ==> versions'[i] == if sizes[i] <= sizes[k] then 0 else versions[i])
  }

  /** What is recorded: a version and the size of its tree for each stage. */
  datatype Stages = Stages(versions: seq<nat>, sizes: seq<nat>) {
    ghost predicate OK(segment: nat) {
      StagesOK(segment, versions, sizes)
    }
  }

  /** A version has been recorded in the stage of its size; what was there is forgotten. */
  ghost predicate AddsTo(segment: nat, a: Stages, version: nat, size: nat, b: Stages) {
    a.OK(segment) && b.OK(segment) &&
    if version == 0 || size == 0 then b == a
    else exists k {:trigger InStage(segment, k, size)} ::
      && 0 <= k < 10 && InStage(segment, k, size) && b == Stages(a.versions[k := version], a.sizes[k := size])
  }

  /** A version has been picked, zero for none, and what belongs to it forgotten. */
  ghost predicate PopsTo(segment: nat, threshold: nat, a: Stages, currentSize: nat, version: nat, b: Stages) {
    a.OK(segment) && b.OK(segment) && currentSize < WORD &&
    if currentSize < threshold then version == 0 && b == a
    else if version == 0 then b == a && forall i :: 0 <= i < 10 ==> a.sizes[i] == 0
    else exists k: nat {:trigger Picked(segment, a.versions, a.sizes, currentSize, threshold, k)} ::
      && k < 10 && version == a.versions[k] && Picked(segment, a.versions, a.sizes, currentSize, threshold, k)
      && Forgotten(a.versions, a.sizes, b.versions, b.sizes, k)
  }

  datatype Event = Added(version: nat, size: nat) | Popped(currentSize: nat, version: nat)

  ghost predicate Moves(segment: nat, threshold: nat, a: Stages, e: Event, b: Stages) {
    match e
    case Added(version, size) => AddsTo(segment, a, version, size, b)
    case Popped(currentSize, version) => PopsTo(segment, threshold, a, currentSize, version, b)
  }

  /** The stages before and after each event. */
  ghost predicate IsRun(segment: nat, threshold: nat, states: seq<Stages>, events: seq<Event>) {
    |states| == |events| + 1 && forall i :: 0 <= i < |events| ==> Moves(segment, threshold, states[i], events[i], states[i + 1])
  }

  /** Event `m` has recorded what stage k holds, and it has been there ever since. */
  ghost predicate RecordedBy(states: seq<Stages>, events: seq<Event>, n: nat, k: nat, m: nat) {
    && m < n < |states| && m < |events| && events[m].Added?
    && forall j :: m < j <= n ==>
      && k < |states[j].versions| && k < |states[j].sizes|
      && states[j].versions[k] == events[m].version && states[j].sizes[k] == events[m].size
  }

  /** Whatever is recorded was added by some event and has not been forgotten or replaced since. */
  lemma {:induction false} SomeEventRecorded(segment: nat, threshold: nat, states: seq<Stages>, events: seq<Event>, n: nat, k: nat)
    returns (m: nat)
    requires IsRun(segment, threshold, states, events) && n <= |events| && k < 10
    requires states[0].OK(segment) && forall i :: 0 <= i < 10 ==> states[0].sizes[i] == 0
    requires states[n].OK(segment) && states[n].sizes[k] > 0
    ensures RecordedBy(states, events, n, k, m)
    decreases n
  {
    assert n > 0;
    assert Moves(segment, threshold, states[n - 1], events[n - 1], states[n]);
    if states[n - 1].versions[k] == states[n].versions[k] && states[n - 1].sizes[k] == states[n].sizes[k] {
      m := SomeEventRecorded(segment, threshold, states, events, n - 1, k);
    } else {
      m := n - 1;
    }
  }

  /** A version that is picked is one that was added, and neither picked nor replaced since: after
      any run of additions and earlier picks. */
  lemma PickedWasAdded(segment: nat, threshold: nat, states: seq<Stages>, events: seq<Event>, n: nat) returns (m: nat, k: nat)
    requires IsRun(segment, threshold, states, events) && n < |events| && events[n].Popped? && events[n].version > 0
    requires states[0].OK(segment) && forall i :: 0 <= i < 10 ==> states[0].sizes[i] == 0
    ensures k < 10 && RecordedBy(states, events, n, k, m) && events[m].version == events[n].version
    ensures n + 1 < |states| && states[n + 1].OK(segment) && states[n + 1].sizes[k] == states[n + 1].versions[k] == 0
  {
    var e := events[n];
    assert Moves(segment, threshold, states[n], e, states[n + 1]);
    k :| k < 10 && e.version == states[n].versions[k]
      && Picked(segment, states[n].versions, states[n].sizes, e.currentSize, threshold, k)
      && Forgotten(states[n].versions, states[n].sizes, states[n + 1].versions, states[n + 1].sizes, k);
    m := SomeEventRecorded(segment, threshold, states, events, n, k);
  }

  /** Of two picks with nothing added in between, the second takes a stage of a larger size than
      the first, and it was there before. */
  lemma TwoPicks(segment: nat, threshold: nat, a: Stages, c1: nat, v1: nat, b: Stages, c2: nat, v2: nat, c: Stages)
    returns (k1: nat, k2: nat)
    requires PopsTo(segment, threshold, a, c1, v1, b) && PopsTo(segment, threshold, b, c2, v2, c) && v1 > 0 && v2 > 0
    ensures k1 < 10 && k2 < 10 && v1 == a.versions[k1] && v2 == a.versions[k2] && a.sizes[k1] < a.sizes[k2]
  {
    k1 :| k1 < 10 && v1 == a.versions[k1] && Picked(segment, a.versions, a.sizes, c1, threshold, k1)
      && Forgotten(a.versions, a.sizes, b.versions, b.sizes, k1);
    k2 :| k2 < 10 && v2 == b.versions[k2] && Picked(segment, b.versions, b.sizes, c2, threshold, k2)
      && Forgotten(b.versions, b.sizes, c.versions, c.sizes, k2);
  }

  /** The first stage that brings relief holds the least such size. */
  lemma FirstIsLeast(segment: nat, versions: seq<nat>, sizes: seq<nat>, versions': seq<nat>, sizes': seq<nat>, currentSize: nat, threshold: nat, k: nat)
    requires StagesOK(segment, versions, sizes) && threshold <= currentSize < WORD && k < 10
    requires Relieves(sizes, currentSize, threshold, k)
    requires forall j :: 0 <= j < k && sizes[j] > 0 ==> !Relieves(sizes, currentSize, threshold, j)
    requires |sizes'| == 10 && forall i :: 0 <= i < 10 ==> sizes'[i] == if i <= k then 0 else sizes[i]
    requires |versions'| == 10 && forall i :: 0 <= i < 10 ==> versions'[i] == if i <= k then 0 else versions[i]
    ensures sizes[k] > 0 && Picked(segment, versions, sizes, currentSize, threshold, k) && Forgotten(versions, sizes, versions', sizes', k)
  {
    forall i, j | 0 <= i < j < 10 && sizes[i] > 0 && sizes[j] > 0 ensures sizes[i] < sizes[j] {
      StagesAscend(segment, versions, sizes, i, j);
    }
  }

  /** The last stage in use holds the largest size. */
  lemma LastIsLargest(segment: nat, versions: seq<nat>, sizes: seq<nat>, versions': seq<nat>, sizes': seq<nat>, currentSize: nat, threshold: nat, k: nat)
    requires StagesOK(segment, versions, sizes) && currentSize < WORD && k < 10 && sizes[k] > 0
    requires forall j :: k < j < 10 ==> sizes[j] == 0
    requires forall j :: 0 <= j < 10 && sizes[j] > 0 ==> !Relieves(sizes, currentSize, threshold, j)
    requires |sizes'| == |versions'| == 10 && forall i :: 0 <= i < 10 ==> sizes'[i] == versions'[i] == 0
    ensures Picked(segment, versions, sizes, currentSize, threshold, k) && Forgotten(versions, sizes, versions', sizes', k)
  {
    forall i | 0 <= i < k && sizes[i] > 0 ensures sizes[i] < sizes[k] {
      StagesAscend(segment, versions, sizes, i, k);
    }
  }

  class GcStatus {
    const versions: array<nat>
    const sizes: array<nat>
    const threshold: nat
    const segment: nat
    var latestGCVersion: nat

    ghost predicate Valid()
      reads this, versions, sizes
    {
      versions != sizes && threshold < WORD && StagesOK(segment, versions[..], sizes[..])
    }

    /** What is recorded at present. */
    ghost function Now(): Stages
      reads this, versions, sizes
    {
      Stages(versions[..], sizes[..])
    }

    constructor (threshold: nat)
      requires threshold < WORD
      ensures Valid() && fresh(versions) && fresh(sizes)
      ensures this.threshold == threshold && segment == threshold / 10 && latestGCVersion == 0
      ensures forall i :: 0 <= i < 10 ==> sizes[i] == versions[i] == 0
    {
      versions := new nat[10](_ => 0);
      sizes := new nat[10](_ => 0);
      this.threshold := threshold;
      segment := threshold / 10;
      latestGCVersion := 0;
    }

    /** Records the size of a version in its stage; what was there is forgotten. */
    method Add(version: nat, size: nat)
      requires Valid() && size < WORD && segment > 0
      modifies versions, sizes
      ensures Valid() && AddsTo(segment, old(Now()), version, size, Now())
    {
      if version == 0 || size == 0 {
        return;
      }
      var index := size / segment;
      StageOf(segment, size);
      if index > 9 {
        index := 9;
      }
      sizes[index] := size;
      versions[index] := version;
    }

    method Clean(index: nat)
      requires Valid() && index < 10
      modifies versions, sizes
      ensures Valid()
      ensures forall i :: 0 <= i <= index ==> sizes[i] == 0 && versions[i] == 0
      ensures forall i :: index < i < 10 ==> sizes[i] == old(sizes[i]) && versions[i] == old(versions[i])
    {
      for i := 0 to index + 1
        invariant Valid()
        invariant forall j :: 0 <= j < i ==> sizes[j] == 0 && versions[j] == 0
        invariant forall j :: i <= j < 10 ==> sizes[j] == old(sizes[j]) && versions[j] == old(versions[j])
      {
        sizes[i] := 0;
        versions[i] := 0;
      }
    }

    /** Picks a version to release: that of the least recorded size that brings the tree below
        the threshold, otherwise that of the largest recorded size. The sizes up to the one
        picked are forgotten, and no others. */
    method Pop(currentSize: nat) returns (version: nat)
      requires Valid() && currentSize < WORD
      modifies this, versions, sizes
      ensures Valid() && latestGCVersion == if currentSize < threshold then old(latestGCVersion) else version
      ensures PopsTo(segment, threshold, old(Now()), currentSize, version, Now())
    {
      if currentSize < threshold {
        return 0;
      }
      ghost var vs, ss := versions[..], sizes[..];
      var except, maximal := 0, 0;
      ghost var last := 10;
      var i := 0;
      while i < 10
        invariant Valid() && i <= 10 && versions[..] == vs && sizes[..] == ss && except == 0
        invariant forall j :: 0 <= j < i && ss[j] > 0 ==> !Relieves(ss, currentSize, threshold, j)
        invariant if maximal == 0 then forall j :: 0 <= j < i ==> ss[j] == 0
                  else last < i && maximal == vs[last] && ss[last] > 0 && forall j :: last < j < i ==> ss[j] == 0
      {
        if sizes[i] > 0 {
          maximal := versions[i];
          last := i;
        }
        if except == 0 && Minus(currentSize, sizes[i]) < threshold {
          except := versions[i];
          Clean(i);
          FirstIsLeast(segment, vs, ss, versions[..], sizes[..], currentSize, threshold, i);
          break;
        }
        i := i + 1;
      }
      if except > 0 {
        latestGCVersion := except;
        return except;
      }
      Clean(9);
      latestGCVersion := maximal;
      if maximal > 0 {
        LastIsLargest(segment, vs, ss, versions[..], sizes[..], currentSize, threshold, last);
      }
      return maximal;
    }
  }
}
