/** One stored node: sixteen child pointers, fourteen packed internal hashes and a version list. */
module TreeNodes {
  import opened MerkleSpec
  import opened PackedNode
  import opened VersionList
  import opened Database

  /** A nil hash as a slot: beyond the leaves there is none. */
  function NilSlot(env: Env, level: nat): Option<Digest> {
    if level > env.maxDepth then None else Some(NilHash(env, level))
  }

  /** A node without leaves below holds nil hashes in all slots. */
  lemma NilSlotsArePacked(env: Env, key: Key, i: nat)
    requires Interior(env, key) && i < 14
    ensures PackSpec(env, key, map[])[i] == NilSlot(env, key.depth + SlotLevel(i))
  {
    SlotIsBinHash(env, key, map[], i);
    BinHashEmpty(env, key.depth + SlotLevel(i), SlotPath(key.path, i));
  }

  class TreeNode {
    const env: Env
    const depth: nat
    const path: nat
    var children: seq<TreeNode?>
    var internals: seq<Option<Digest>>
    var versions: seq<VersionInfo>
    var temporary: bool

    ghost predicate Shape()
      reads this
    {
      |children| == 16 && |internals| == 14
    }

    function Id(): Key {
      Key(depth, path)
    }

    /** Latest hash of the node. */
    function Root(): Digest
      reads this
    {
      if versions == [] then NilHash(env, depth) else versions[|versions| - 1].hash
    }

    function ChildRoot(i: nat): Digest
      requires |children| == 16 && i < 16
      reads this, children
    {
      if children[i] == null then NilHash(env, depth + 4) else children[i].Root()
    }

    ghost function ChildRoots(): (r: seq<Digest>)
      requires |children| == 16
      reads this, children
      ensures |r| == 16
    {
      seq(16, i requires 0 <= i < 16 && |children| == 16 reads this, children => ChildRoot(i))
    }

    /** The internals are the packed hashes of the children. */
    ghost predicate Packed()
      requires |children| == 16
      reads this, children
    {
      internals == Pack(env.hash, ChildRoots())
    }

    ghost predicate Fresh()
      reads this
    {
      Shape() && versions == [] && !temporary && forall i :: 0 <= i < 16 ==> children[i] == null
    }

    /** An empty node. */
    constructor (env: Env, depth: nat, path: nat)
      ensures this.env == env && this.depth == depth && this.path == path
      ensures Fresh() && forall i :: 0 <= i < 14 ==> internals[i] == NilSlot(env, depth + SlotLevel(i))
      ensures depth % 4 == 0 && depth + 4 <= env.maxDepth ==> internals == PackSpec(env, Key(depth, path), map[])
    {
      this.env := env;
      this.depth := depth;
      this.path := path;
      children := seq(16, _ => null);
      internals := seq(14, _ => None);
      versions := [];
      temporary := false;
      new;
      for i := 0 to 2
        invariant Fresh() && forall j :: 0 <= j < i ==> internals[j] == NilSlot(env, depth + SlotLevel(j))
      {
        internals := internals[i := NilSlot(env, depth + 1)];
      }
      for i := 2 to 6
        invariant Fresh() && forall j :: 0 <= j < i ==> internals[j] == NilSlot(env, depth + SlotLevel(j))
      {
        internals := internals[i := NilSlot(env, depth + 2)];
      }
      for i := 6 to 14
        invariant Fresh() && forall j :: 0 <= j < i ==> internals[j] == NilSlot(env, depth + SlotLevel(j))
      {
        internals := internals[i := NilSlot(env, depth + 3)];
      }
      if depth % 4 == 0 && depth + 4 <= env.maxDepth {
        forall i | 0 <= i < 14
          ensures internals[i] == PackSpec(env, Key(depth, path), map[])[i]
        {
          NilSlotsArePacked(env, Key(depth, path), i);
        }
      }
    }

    /** A node read from its record; the children known to the record become placeholders
        that carry only their version list. */
    constructor FromRecord(env: Env, depth: nat, record: Record)
      requires |record.children| == 16 && |record.internals| == 14
      ensures this.env == env && this.depth == depth && this.path == record.path
      ensures Shape() && versions == record.versions && internals == record.internals && !temporary
      ensures forall i :: 0 <= i < 16 ==>
        if Listed(record.children[i]) == [] then children[i] == null
        else children[i] != null && children[i].Placeholder(env, Key(depth, record.path).Child(i), Listed(record.children[i]))
      ensures forall i :: 0 <= i < 16 && children[i] != null ==> fresh(children[i]) && children[i] != this
    {
      this.env := env;
      this.depth := depth;
      this.path := record.path;
      children := seq(16, _ => null);
      internals := record.internals;
      versions := record.versions;
      temporary := false;
      new;
      for i := 0 to 16
        invariant Shape() && versions == record.versions && internals == record.internals && !temporary
        invariant forall j :: 0 <= j < i ==>
          if Listed(record.children[j]) == [] then children[j] == null
          else children[j] != null && children[j].Placeholder(env, Key(depth, record.path).Child(j), Listed(record.children[j]))
        invariant forall j :: 0 <= j < 16 && children[j] != null ==> fresh(children[j]) && children[j] != this
        invariant forall j :: i <= j < 16 ==> children[j] == null
      {
        if Listed(record.children[i]) != [] {
          var child := new TreeNode.AsPlaceholder(env, depth + 4, 16 * record.path + i, Listed(record.children[i]));
          children := children[i := child];
        }
      }
    }

    constructor AsPlaceholder(env: Env, depth: nat, path: nat, versions: seq<VersionInfo>)
      ensures Placeholder(env, Key(depth, path), versions)
    {
      this.env := env;
      this.depth := depth;
      this.path := path;
      this.children := seq(16, _ => null);
      this.internals := seq(14, _ => None);
      this.versions := versions;
      this.temporary := true;
    }

    ghost predicate Placeholder(env: Env, id: Key, vs: seq<VersionInfo>)
      reads this
    {
      this.env == env && Id() == id && Shape() && versions == vs && temporary && forall i :: 0 <= i < 16 ==> children[i] == null
    }

    method Copy() returns (c: TreeNode)
      ensures fresh(c) && c.env == env && c.Id() == Id()
      ensures c.children == children && c.internals == internals
      ensures c.versions == versions && c.temporary == temporary
    {
      c := new TreeNode(env, depth, path);
      c.children := children;
      c.internals := internals;
      c.versions := versions;
      c.temporary := temporary;
    }

    /** Publishes a hash; an entry of the same version is overwritten. */
    method NewVersion(v: VersionInfo)
      modifies this`versions
      ensures versions == Publish(old(versions), v)
    {
      if versions != [] && versions[|versions| - 1].ver == v.ver {
        versions := versions[..|versions| - 1] + [v];
      } else {
        versions := versions + [v];
      }
    }

    method Set(hash: Digest, version: nat)
      modifies this`versions
      ensures versions == Publish(old(versions), VersionInfo(version, hash))
    {
      NewVersion(VersionInfo(version, hash));
    }

    /** Replaces one child and re-hashes the three slots above it. If the internals agreed
        with the children before, they agree with the new children in all fourteen slots. */
    method SetChildren(child: TreeNode?, nibble: nat, version: nat)
      requires Shape() && nibble < 16 && this !in children && child != this
      modifies this`children, this`internals, this`versions
      ensures Shape() && children == old(children)[nibble := child]
      ensures old(Packed()) ==> Packed()
      ensures forall s :: 0 <= s < 14 && !OnPath(nibble, s) ==> internals[s] == old(internals[s])
      ensures versions == Publish(old(versions),
                VersionInfo(version, env.hash(Raw(env, internals[0]), Raw(env, internals[1]))))
    {
      hide Slot, HeapOrdered, OnPath, NilHash;
      ghost var before := ChildRoots();
      children := children[nibble := child];
      ghost var ch := ChildRoots();
      assert ch == before[nibble := ChildRoot(nibble)];

      var left, right := Pair(nibble);
      assert ChildRoots() == ch;
      assert Pack(env.hash, ch)[6 + nibble / 2] == Some(Slot(env.hash, ch, 6 + nibble / 2));
      OthersStay(env.hash, before, nibble, ChildRoot(nibble));
      PackIsHeap(env.hash, ch);
      ReHash(nibble, left, right, Pack(env.hash, ch));
      NewVersion(VersionInfo(version, env.hash(Raw(env, internals[0]), Raw(env, internals[1]))));
      assert ChildRoots() == ch;
    }

    /** The hashes of a child and its sibling, left one first. */
    method Pair(nibble: nat) returns (left: Digest, right: Digest)
      requires |children| == 16 && nibble < 16
      ensures env.hash(left, right) == Slot(env.hash, ChildRoots(), 6 + nibble / 2)
    {
      left, right := NilHash(env, depth + 4), NilHash(env, depth + 4);
      if nibble % 2 == 0 {
        if children[nibble] != null { left := children[nibble].Root(); }
        if children[Xor1(nibble)] != null { right := children[Xor1(nibble)].Root(); }
      } else {
        if children[nibble] != null { right := children[nibble].Root(); }
        if children[Xor1(nibble)] != null { left := children[Xor1(nibble)].Root(); }
      }
    }

    /** The way up from a pair of children: one slot at each of the three levels. */
    method ReHash(nibble: nat, left0: Digest, right0: Digest, ghost want: seq<Option<Digest>>)
      requires |internals| == 14 && nibble < 16 && |want| == 14 && HeapOrdered(env.hash, want)
      requires Some(env.hash(left0, right0)) == want[6 + nibble / 2]
      modifies this`internals
      ensures |internals| == 14
      ensures forall s :: 0 <= s < 14 && !OnPath(nibble, s) ==> internals[s] == old(internals[s])
      ensures DoneFrom(want, nibble, old(internals), 14) ==> internals == want
    {
      ghost var good := DoneFrom(want, nibble, internals, 14);
      var left, right := left0, right0;
      var prefix: int := 6;
      var i, nib := 4, nibble;
      while i >= 1
        invariant (i == 4 && prefix == 6 && nib == nibble) || (i == 2 && prefix == 2 && nib == nibble / 2)
               || (i == 1 && prefix == 0 && nib == nibble / 2 / 2) || (i == 0 && prefix == -1)
        invariant |internals| == 14
        invariant forall s :: 0 <= s < 14 && !OnPath(nibble, s) ==> internals[s] == old(internals[s])
        invariant good ==> DoneFrom(want, nibble, internals, prefix + 2 * i)
        invariant good && i >= 1 ==> Some(env.hash(left, right)) == want[prefix + nib / 2]
        decreases i
      {
        ghost var was := internals;
        nib := nib / 2;
        var hash := env.hash(left, right);
        internals := internals[prefix + nib := Some(hash)];
        OnWay(nibble, i, prefix, nib);
        if good { StepUp(env.hash, want, nibble, was, i, prefix, nib); }
        if nib % 2 == 0 {
          left := hash;
          right := Raw(env, internals[Xor1(prefix + nib)]);
        } else {
          right := hash;
          left := Raw(env, internals[Xor1(prefix + nib)]);
        }
        prefix, i := prefix - i, i / 2;
      }
    }

    /** Recomputes all fourteen slots from the children. */
    method ComputeInternalHash()
      requires Shape()
      modifies this`internals
      ensures Shape() && Packed()
    {
      ghost var ch := ChildRoots();
      LowSlots(ch);
      HighSlots(ch);
      assert ChildRoots() == ch;
    }

    /** The eight slots above pairs of children. */
    method LowSlots(ghost ch: seq<Digest>)
      requires Shape() && ch == ChildRoots()
      modifies this`internals
      ensures Shape() && forall s :: 6 <= s < 14 ==> internals[s] == Some(Slot(env.hash, ch, s))
    {
      hide Slot, NilHash;
      var i := 0;
      while i < 15
        invariant 0 <= i <= 16 && i % 2 == 0 && |internals| == 14
        invariant forall s :: 6 <= s < 6 + i / 2 ==> internals[s] == Some(Slot(env.hash, ch, s))
      {
        var left, right := NilHash(env, depth + 4), NilHash(env, depth + 4);
        if children[i] != null { left := children[i].Root(); }
        if children[i + 1] != null { right := children[i + 1].Root(); }
        assert left == ch[i] && right == ch[i + 1];
        LowSlot(env.hash, ch, i / 2);
        internals := internals[6 + i / 2 := Some(env.hash(left, right))];
        i := i + 2;
      }
    }

    /** The six slots above pairs of slots, from the lowest level up. */
    method HighSlots(ghost ch: seq<Digest>)
      requires |internals| == 14 && |ch| == 16 && forall s :: 6 <= s < 14 ==> internals[s] == Some(Slot(env.hash, ch, s))
      modifies this`internals
      ensures internals == Pack(env.hash, ch)
    {
      hide Slot;
      var i := 13;
      while i > 1
        invariant 1 <= i <= 13 && i % 2 == 1 && |internals| == 14
        invariant forall s :: i / 2 <= s < 14 ==> internals[s] == Some(Slot(env.hash, ch, s))
      {
        HighSlot(env.hash, ch, i / 2 - 1);
        internals := internals[i / 2 - 1 := Some(env.hash(Raw(env, internals[i - 1]), Raw(env, internals[i])))];
        i := i - 2;
      }
    }

    /** Empties the slots above a child that is going to change. */
    method Mark(nibble: nat)
      requires Shape() && nibble < 16
      modifies this`internals
      ensures Shape()
      ensures forall s :: 0 <= s < 14 ==> internals[s] == if OnPath(nibble, s) then None else old(internals[s])
    {
      var marks := LeafInternalMap(nibble);
      var i := 0;
      while i < |marks|
        invariant 0 <= i <= |marks| && Shape()
        invariant forall s :: 0 <= s < 14 ==> internals[s] == if s in marks[..i] then None else old(internals[s])
      {
        internals := internals[marks[i] := None];
        i := i + 1;
      }
    }

    /** Fills an internal slot unless it is filled already. */
    method SetInternal(idx: nat, left: Digest, right: Digest) returns (hash: Digest, setBefore: bool)
      requires |internals| == 14 && idx < 14
      modifies this`internals
      ensures setBefore <==> old(internals)[idx].Some?
      ensures setBefore ==> internals == old(internals) && Some(hash) == internals[idx]
      ensures !setBefore ==> hash == env.hash(left, right) && internals == old(internals)[idx := Some(hash)]
    {
      if internals[idx].Some? {
        return internals[idx].value, true;
      }
      hash := env.hash(left, right);
      internals := internals[idx := Some(hash)];
      setBefore := false;
    }

    function LatestVersion(): nat
      reads this
    {
      Latest(versions)
    }

    /** Drops the versions that no read at `oldestVersion` or later can see. */
    method Prune(oldestVersion: nat) returns (freed: nat)
      requires Ascending(versions)
      modifies this`versions
      ensures versions == Pruned(old(versions), oldestVersion)
      ensures freed == VERSION_SIZE * (|old(versions)| - |versions|)
    {
      if |versions| <= 1 {
        return 0;
      }
      var i := 0;
      while i < |versions| - 1 && versions[i].ver < oldestVersion
        invariant 0 <= i <= |versions| - 1
        invariant forall j :: 0 <= j < i ==> versions[j].ver < oldestVersion
      {
        i := i + 1;
      }
      var originSize := |versions| * VERSION_SIZE;
      if i > 0 && versions[i].ver > oldestVersion {
        PrunedFrom(versions, oldestVersion, i - 1);
        versions := versions[i - 1..];
        return originSize - |versions| * VERSION_SIZE;
      }
      PrunedFrom(versions, oldestVersion, i);
      versions := versions[i..];
      return originSize - |versions| * VERSION_SIZE;
    }

    /** Drops the versions after `targetVersion` and says whether there were any. */
    method Rollback(targetVersion: nat) returns (next: bool, freed: nat)
      modifies this`versions
      ensures versions == Truncated(old(versions), targetVersion)
      ensures next <==> Latest(old(versions)) > targetVersion
      ensures freed == VERSION_SIZE * (|old(versions)| - |versions|)
    {
      if |versions| == 0 {
        return false, 0;
      }
      next := false;
      var originSize := |versions| * VERSION_SIZE;
      var i := |versions| - 1;
      assert versions[..i + 1] == versions;
      while i >= 0 && versions[i].ver > targetVersion
        invariant -1 <= i < |versions|
        invariant Truncated(versions[..i + 1], targetVersion) == Truncated(versions, targetVersion)
        invariant next <==> i < |versions| - 1
        invariant i < |versions| - 1 ==> versions[|versions| - 1].ver > targetVersion
      {
        assert versions[..i + 1][..i] == versions[..i];
        next := true;
        i := i - 1;
      }
      versions := versions[..i + 1];
      freed := originSize - |versions| * VERSION_SIZE;
    }

    /** Empties a node that has not changed for long: it becomes a placeholder. */
    method Archive()
      requires Shape()
      modifies this`children, this`internals, this`temporary
      ensures Shape() && temporary
      ensures forall i :: 0 <= i < 16 ==> children[i] == null
      ensures forall i :: 0 <= i < 14 ==> internals[i] == None
    {
      for i := 0 to 14
        invariant Shape() && forall j :: 0 <= j < i ==> internals[j] == None
      {
        internals := internals[i := None];
      }
      for i := 0 to 16
        invariant Shape() && forall j :: 0 <= j < i ==> children[j] == null
        invariant forall j :: 0 <= j < 14 ==> internals[j] == None
      {
        children := children[i := null];
      }
      temporary := true;
    }

    /** What is stored of this node. */
    function ToRecord(): Record
      requires Shape()
      reads this, children
    {
      Record(seq(16, i requires 0 <= i < 16 && |children| == 16 reads this, children =>
                      if children[i] == null then None else Some(children[i].versions)),
             internals, versions, path)
    }
  }

  /** The slots from `low` on are as wanted, and those below it that are off the way up. */
  ghost predicate DoneFrom(want: seq<Option<Digest>>, nibble: nat, internals: seq<Option<Digest>>, low: int)
    requires |want| == 14 && nibble < 16 && |internals| == 14
  {
    forall s :: 0 <= s < 14 && (s >= low || !OnPath(nibble, s)) ==> internals[s] == want[s]
  }

  lemma OthersStay(hash: HashFn, ch: seq<Digest>, nibble: nat, x: Digest)
    requires |ch| == 16 && nibble < 16
    ensures DoneFrom(Pack(hash, ch[nibble := x]), nibble, Pack(hash, ch), 14)
  {
    forall s | 0 <= s < 14 && !OnPath(nibble, s)
      ensures Pack(hash, ch)[s] == Pack(hash, ch[nibble := x])[s]
    {
      SlotFrame(hash, ch, nibble, x, s);
    }
  }

  /** Filling the slot of one level completes that level; the sibling slot is complete. */
  lemma StepUp(hash: HashFn, want: seq<Option<Digest>>, nibble: nat, internals: seq<Option<Digest>>,
               i: nat, prefix: int, nib: nat)
    requires |want| == 14 && nibble < 16 && |internals| == 14 && HeapOrdered(hash, want)
    requires (i == 4 && prefix == 6 && nib == nibble / 2) || (i == 2 && prefix == 2 && nib == nibble / 2 / 2)
          || (i == 1 && prefix == 0 && nib == nibble / 2 / 2 / 2)
    requires DoneFrom(want, nibble, internals, prefix + 2 * i)
    ensures DoneFrom(want, nibble, internals[prefix + nib := want[prefix + nib]], prefix - i + 2 * (i / 2))
    ensures internals[Xor1(prefix + nib)] == want[Xor1(prefix + nib)]
    ensures i > 1 ==>
      var (here, beside) := (want[prefix + nib].value, want[Xor1(prefix + nib)].value);
      want[prefix - i + nib / 2] == Some(if nib % 2 == 0 then hash(here, beside) else hash(beside, here))
  {
    if i > 1 { SlotAbove(hash, want, prefix + nib); }
  }

  lemma OnWay(nibble: nat, i: nat, prefix: int, nib: nat)
    requires nibble < 16
    requires (i == 4 && prefix == 6 && nib == nibble / 2) || (i == 2 && prefix == 2 && nib == nibble / 2 / 2)
          || (i == 1 && prefix == 0 && nib == nibble / 2 / 2 / 2)
    ensures 0 <= prefix + nib < 14 && OnPath(nibble, prefix + nib)
    ensures prefix <= Xor1(prefix + nib) < 14 && Xor1(prefix + nib) != prefix + nib
  {
  }

  /** Every slot but those of the last level is the hash of the two slots below it. */
  ghost predicate HeapOrdered(hash: HashFn, w: seq<Option<Digest>>)
    requires |w| == 14
  {
    && (forall s :: 0 <= s < 14 ==> w[s].Some?)
    && forall s :: 0 <= s < 6 ==> HeapSlot(hash, w, s)
  }

  ghost predicate HeapSlot(hash: HashFn, w: seq<Option<Digest>>, s: nat)
    requires |w| == 14 && s < 6
  {
    w[2 * s + 2].Some? && w[2 * s + 3].Some? && w[s] == Some(hash(w[2 * s + 2].value, w[2 * s + 3].value))
  }

  lemma PackIsHeap(hash: HashFn, ch: seq<Digest>)
    requires |ch| == 16
    ensures HeapOrdered(hash, Pack(hash, ch))
  {
  }

  lemma SlotAbove(hash: HashFn, w: seq<Option<Digest>>, s: nat)
    requires |w| == 14 && HeapOrdered(hash, w) && 2 <= s < 14
    ensures w[s / 2 - 1] == Some(if s % 2 == 0 then hash(w[s].value, w[s + 1].value) else hash(w[s - 1].value, w[s].value))
  {
    assert HeapSlot(hash, w, s / 2 - 1);
  }

  /** The slots above each child. */
  function LeafInternalMap(nibble: nat): (r: seq<nat>)
    requires nibble < 16
    ensures forall s: nat :: s < 14 ==> (s in r <==> OnPath(nibble, s))
    ensures forall k :: 0 <= k < |r| ==> r[k] < 14
  {
    match nibble
    case 0 => [0, 2, 6]
    case 1 => [0, 2, 6]
    case 2 => [0, 2, 7]
    case 3 => [0, 2, 7]
    case 4 => [0, 3, 8]
    case 5 => [0, 3, 8]
    case 6 => [0, 3, 9]
    case 7 => [0, 3, 9]
    case 8 => [1, 4, 10]
    case 9 => [1, 4, 10]
    case 10 => [1, 4, 11]
    case 11 => [1, 4, 11]
    case 12 => [1, 5, 12]
    case 13 => [1, 5, 12]
    case 14 => [1, 5, 13]
    case _ => [1, 5, 13]
  }

  lemma {:induction false} PrunedFrom(vs: seq<VersionInfo>, oldest: nat, i: nat)
    requires Ascending(vs) && i < |vs|
    requires forall j :: 1 <= j <= i ==> vs[j].ver <= oldest
    requires i + 1 < |vs| ==> vs[i + 1].ver > oldest
    ensures Pruned(vs, oldest) == vs[i..]
    decreases i
  {
    if i > 0 {
      PrunedFrom(vs[1..], oldest, i - 1);
      assert vs[1..][i - 1..] == vs[i..];
    }
  }
}
