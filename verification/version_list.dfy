/** The list of (version, hash) pairs a node keeps, oldest first. */
module VersionList {
  import opened MerkleSpec

  datatype VersionInfo = VersionInfo(ver: nat, hash: Digest)

  const VERSION_SIZE: nat := 40

  predicate Ascending(vs: seq<VersionInfo>) {
    forall i, j :: 0 <= i < j < |vs| ==> vs[i].ver < vs[j].ver
  }

  /** Version of the newest entry, zero if there is none. */
  function Latest(vs: seq<VersionInfo>): nat {
    if vs == [] then 0 else vs[|vs| - 1].ver
  }

  function LastEntry(vs: seq<VersionInfo>): Option<VersionInfo> {
    if vs == [] then None else Some(vs[|vs| - 1])
  }

  /** The newest entry not newer than `w`: what a read at version `w` finds. */
  function Lookup(vs: seq<VersionInfo>, w: nat): Option<VersionInfo> {
    if vs == [] then None
    else if vs[|vs| - 1].ver <= w then Some(vs[|vs| - 1])
    else Lookup(vs[..|vs| - 1], w)
  }

  /** Hash of a node at depth `d` read at version `w`. */
  function HashAt(env: Env, d: nat, vs: seq<VersionInfo>, w: nat): Digest {
    match Lookup(vs, w)
    case None => NilHash(env, d)
    case Some(v) => v.hash
  }

  /** Version of a node read at version `w`, zero if it did not exist. */
  function VerAt(vs: seq<VersionInfo>, w: nat): nat {
    match Lookup(vs, w)
    case None => 0
    case Some(v) => v.ver
  }

  /** The list once a hash is published: the newest entry is overwritten when it has the
      same version. */
  function Publish(vs: seq<VersionInfo>, v: VersionInfo): seq<VersionInfo> {
    if vs != [] && vs[|vs| - 1].ver == v.ver then vs[..|vs| - 1] + [v] else vs + [v]
  }

  lemma PublishTwice(vs: seq<VersionInfo>, v: VersionInfo, v': VersionInfo)
    requires v.ver == v'.ver
    ensures Publish(Publish(vs, v), v') == Publish(vs, v')
  {
    var once := Publish(vs, v);
    assert once[..|once| - 1] == if vs != [] && vs[|vs| - 1].ver == v.ver then vs[..|vs| - 1] else vs;
  }

  /** An entry is dropped as long as the next one is not newer than `oldest`. */
  function Pruned(vs: seq<VersionInfo>, oldest: nat): (r: seq<VersionInfo>)
    ensures |r| <= |vs| && r == vs[|vs| - |r|..]
    ensures vs != [] ==> r != []
  {
    if |vs| >= 2 && vs[1].ver <= oldest then Pruned(vs[1..], oldest) else vs
  }

  /** The entries up to the newest one not newer than `v`. */
  function Truncated(vs: seq<VersionInfo>, v: nat): (r: seq<VersionInfo>)
    ensures |r| <= |vs| && r == vs[..|r|]
    ensures Latest(r) <= v
  {
    if vs == [] || vs[|vs| - 1].ver <= v then vs else Truncated(vs[..|vs| - 1], v)
  }

  lemma {:induction false} LookupAppend(vs: seq<VersionInfo>, v: VersionInfo, w: nat)
    requires Latest(vs) < v.ver
    ensures Lookup(vs + [v], w) == if v.ver <= w then Some(v) else Lookup(vs, w)
  {
    assert (vs + [v])[..|vs|] == vs;
  }

  /** Beyond the newest entry nothing changes any more. */
  lemma LookupLatest(vs: seq<VersionInfo>, w: nat)
    requires Latest(vs) <= w
    ensures Lookup(vs, w) == LastEntry(vs) && VerAt(vs, w) == Latest(vs) && Truncated(vs, w) == vs
  {
  }

  /** Pruning keeps every lookup at a version that is still offered. */
  lemma {:induction false} PruneKeepsLookups(vs: seq<VersionInfo>, oldest: nat, w: nat)
    requires Ascending(vs) && oldest <= w
    ensures Lookup(Pruned(vs, oldest), w) == Lookup(vs, w)
    decreases |vs|
  {
    if |vs| >= 2 && vs[1].ver <= oldest {
      DropFirst(vs, w);
      PruneKeepsLookups(vs[1..], oldest, w);
    }
  }

  lemma {:induction false} DropFirst(vs: seq<VersionInfo>, w: nat)
    requires Ascending(vs) && |vs| >= 2 && vs[1].ver <= w
    ensures Lookup(vs[1..], w) == Lookup(vs, w)
    decreases |vs|
  {
    var n := |vs| - 1;
    if vs[n].ver > w {
      assert vs[1..][..n - 1] == vs[..n][1..];
      DropFirst(vs[..n], w);
    }
  }

  /** Pruning is tight: what is left is ascending, keeps its newest entry and holds at most
      one entry that is not newer than `oldest`. */
  lemma {:induction false} PruneIsTight(vs: seq<VersionInfo>, oldest: nat)
    requires Ascending(vs)
    ensures var r := Pruned(vs, oldest);
      && Ascending(r)
      && LastEntry(r) == LastEntry(vs)
      && forall i :: 1 <= i < |r| ==> r[i].ver > oldest
    decreases |vs|
  {
    if |vs| >= 2 && vs[1].ver <= oldest {
      PruneIsTight(vs[1..], oldest);
      assert Pruned(vs, oldest) == Pruned(vs[1..], oldest);
    } else {
      assert Pruned(vs, oldest) == vs;
    }
  }

  /** A dropped entry could only answer reads below `oldest`. */
  lemma {:induction false} PruneOnlyDropsSuperseded(vs: seq<VersionInfo>, oldest: nat, i: nat)
    requires Ascending(vs) && i < |vs| - |Pruned(vs, oldest)|
    ensures i + 1 < |vs| && vs[i + 1].ver <= oldest
    decreases |vs|
  {
    if i > 0 {
      PruneOnlyDropsSuperseded(vs[1..], oldest, i - 1);
    }
  }

  /** What a lookup finds: the newest entry not newer than `w`, if there is any. */
  lemma {:induction false} LookupFinds(vs: seq<VersionInfo>, w: nat) returns (i: int)
    ensures -1 <= i < |vs| && Lookup(vs, w) == if i < 0 then None else Some(vs[i])
    ensures i >= 0 ==> vs[i].ver <= w
    ensures forall j :: i < j < |vs| ==> vs[j].ver > w
    decreases |vs|
  {
    i := |vs| - 1;
    if vs != [] && vs[|vs| - 1].ver > w {
      i := LookupFinds(vs[..|vs| - 1], w);
    }
  }

  /** Below `oldest` a lookup survives pruning exactly if it found nothing, or found what the
      lookup at `oldest` finds: everything older has been dropped. */
  lemma PruneKeepsExactly(vs: seq<VersionInfo>, oldest: nat, w: nat)
    requires Ascending(vs)
    ensures Lookup(Pruned(vs, oldest), w) == Lookup(vs, w) <==>
      oldest <= w || Lookup(vs, w) == None || Lookup(vs, w) == Lookup(vs, oldest)
  {
    hide Pruned, Lookup, LastEntry, Latest;
    if oldest <= w {
      PruneKeepsLookups(vs, oldest, w);
    } else {
      var k := PrunedShape(vs, oldest);
      var a := LookupFinds(vs, w);
      var b := LookupFinds(vs, oldest);
      var c := LookupFinds(vs[k..], w);
    }
  }

  /** From its oldest entry on a pruned list answers as before. */
  lemma PruneKeepsFrom(vs: seq<VersionInfo>, oldest: nat, w: nat)
    requires Ascending(vs) && Pruned(vs, oldest) != [] && Pruned(vs, oldest)[0].ver <= w
    ensures Lookup(Pruned(vs, oldest), w) == Lookup(vs, w) && vs[0].ver <= w
  {
    hide Pruned, Lookup, LastEntry, Latest;
    var k := PrunedShape(vs, oldest);
    var a := LookupFinds(vs, w);
    var c := LookupFinds(vs[k..], w);
  }

  /** An entry whose version is not newer than the newest one breaks the order of the list. */
  lemma OrderKeptExactly(vs: seq<VersionInfo>, v: VersionInfo)
    requires Ascending(vs)
    ensures Ascending(vs + [v]) <==> vs == [] || Latest(vs) < v.ver
  {
    var long := vs + [v];
    if vs != [] {
      assert long[|vs| - 1] == vs[|vs| - 1] && long[|vs|] == v;
    }
  }

  /** The window may not be lowered again: once version 3 has been written with 2 as the oldest
      version, a read at 1 finds nothing. */
  lemma LoweredWindow(a: Digest, b: Digest, c: Digest)
    ensures var vs := [VersionInfo(1, a), VersionInfo(2, b), VersionInfo(3, c)];
      Lookup(vs, 1) == Some(VersionInfo(1, a)) && Pruned(vs, 2) == vs[1..] && Lookup(Pruned(vs, 2), 1) == None
  {
    var e1, e2, e3 := VersionInfo(1, a), VersionInfo(2, b), VersionInfo(3, c);
    assert [e1, e2, e3][..2] == [e1, e2] && [e1, e2][..1] == [e1] && [e1, e2, e3][1..] == [e2, e3];
    assert Lookup([e1, e2], 1) == Some(e1);
    assert [e2, e3][..1] == [e2] && [e2][..0] == [] && Lookup([e2], 1) == None;
  }

  /** What is kept starts at the newest entry not newer than `oldest`, if there is any. */
  lemma PrunedShape(vs: seq<VersionInfo>, oldest: nat) returns (k: nat)
    requires Ascending(vs)
    ensures k <= |vs| && Pruned(vs, oldest) == vs[k..] && (vs != [] ==> k < |vs|)
    ensures k > 0 ==> vs[k].ver <= oldest
    ensures forall j :: k < j < |vs| ==> vs[j].ver > oldest
  {
    k := |vs| - |Pruned(vs, oldest)|;
    PruneIsTight(vs, oldest);
    if k > 0 { PruneOnlyDropsSuperseded(vs, oldest, k - 1); }
    forall j | k < j < |vs| ensures vs[j].ver > oldest {
      assert vs[j] == Pruned(vs, oldest)[j - k];
    }
  }

  /** Truncation keeps every lookup up to the target, and from there on it answers what
      the target answered. */
  lemma {:induction false} TruncateKeepsLookups(vs: seq<VersionInfo>, v: nat, w: nat)
    ensures Lookup(Truncated(vs, v), w) == Lookup(vs, if w <= v then w else v)
    decreases |vs|
  {
    if vs != [] && vs[|vs| - 1].ver > v {
      TruncateKeepsLookups(vs[..|vs| - 1], v, w);
    }
  }

  lemma {:induction false} TruncateShape(vs: seq<VersionInfo>, v: nat)
    requires Ascending(vs)
    ensures Ascending(Truncated(vs, v))
  {
  }
}
