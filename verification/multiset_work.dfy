/** The nodes that setting many leaves works on: private copies in a journal of their own, some
    slots emptied, some filled again, some nodes published. */
module MultiSetWork {
  import opened MerkleSpec
  import opened PackedNode
  import opened VersionList
  import opened Database
  import opened History
  import opened TreeNodes
  import opened NodeState
  import opened MultiSetProtocol

  function At(id: Key): Pos {
    Pos(id.depth, id.path)
  }

  function SlotAt(id: Key, i: nat): Pos
    requires i < 14
  {
    Pos(id.depth + SlotLevel(i), SlotPath(id.path, i))
  }

  /** The slots above child `nibble` of a node. */
  ghost function SlotsAbove(id: Key, nibble: nat): iset<Pos>
    requires nibble < 16
  {
    iset i | 0 <= i < 14 && OnPath(nibble, i) :: SlotAt(id, i)
  }

  /** A slot belongs to one node only. */
  lemma SlotsApart(id: Key, i: nat, other: Key, k: nat)
    requires i < 14 && k < 14 && id.depth % 4 == 0 && other.depth % 4 == 0
    ensures SlotAt(id, i) == SlotAt(other, k) ==> id == other && i == k
    ensures SlotAt(id, i) != At(other) && SlotAt(id, i).IsSlot() && !At(other).IsSlot()
  {
  }

  /** `s` is the tree as it is, `marks` the places to be filled anew for version `ver`, `filled`
      those that have been, `tmp` the copies. */
  datatype Work = Work(s: TreeState, ver: nat, marks: iset<Pos>, filled: map<Pos, Digest>, tmp: Journal)
  {
    function Shown(p: Pos): Option<Digest> {
      if p in filled then Some(filled[p]) else None
    }

    ghost predicate SlotOK(id: Key, i: nat, slot: Option<Digest>)
      requires Interior(s.env, id) && i < 14
    {
      slot == if SlotAt(id, i) in marks then Shown(SlotAt(id, i)) else PackSpec(s.env, id, s.now)[i]
    }

    /** The version list in the tree as it is. */
    function Before(id: Key): seq<VersionInfo> {
      if KeyOK(s.env, id) then s.Versions(id) else []
    }

    function List(id: Key): seq<VersionInfo> {
      if At(id) in filled then VersionsAt(s.m, id) + [VersionInfo(ver, filled[At(id)])] else Before(id)
    }

    ghost predicate ChildOK(id: Key, c: TreeNode?) {
      if id in tmp then c == tmp[id] else s.ChildPending(id, c)
    }

    ghost predicate KidsOK(id: Key, ch: seq<TreeNode?>) {
      |ch| == 16 &&
      if id.depth == s.env.maxDepth then forall i :: 0 <= i < 16 ==> ch[i] == null
      else forall i :: 0 <= i < 16 ==> ChildOK(id.Child(i), ch[i])
    }

    ghost predicate SlotsOK(id: Key, internals: seq<Option<Digest>>) {
      |internals| == 14 && (Interior(s.env, id) ==> forall i :: 0 <= i < 14 ==> SlotOK(id, i, internals[i]))
    }

    ghost predicate NodeOK(n: TreeNode)
      reads n
    {
      && n.env == s.env && KeyOK(s.env, n.Id()) && !n.temporary
      && n.versions == List(n.Id()) && SlotsOK(n.Id(), n.internals) && KidsOK(n.Id(), n.children)
    }

    /** With a node its parent, and with a slot its node, has to be done. */
    ghost predicate MarksOK() {
      && s.env.Valid() && (s.journal != map[] ==> s.ver == ver)
      && (forall id :: id in tmp <==> KeyOK(s.env, id) && At(id) in marks)
      && (forall id: Key, i: nat {:trigger id.Child(i)} :: id.depth % 4 == 0 && i < 16 && At(id.Child(i)) in marks ==> At(id) in marks)
      && (forall id: Key, i: nat {:trigger SlotAt(id, i)} :: id.depth % 4 == 0 && i < 14 && SlotAt(id, i) in marks ==> At(id) in marks)
      && (forall p :: p in filled ==> p in marks)
    }

    ghost predicate TmpOK()
      reads tmp.Values
    {
      && MarksOK() && tmp.Values !! s.saved && tmp.Values !! s.journal.Values
      && forall id :: id in tmp ==> tmp[id].Id() == id && NodeOK(tmp[id])
    }
  }

  // ---- phase one: copying nodes and emptying slots ----

  /** The copy of `target`, made if there is none yet and then linked below its parent. */
  method SetIfNotExist(tmp: Journal, target: TreeNode, ghost w: Work)
    returns (cp: TreeNode, tmp': Journal, ghost w': Work)
    requires w.TmpOK() && w.tmp == tmp && Interior(w.s.env, target.Id()) && At(target.Id()) !in w.filled
    requires w.s.PendingNode(target) && !target.temporary && target !in tmp.Values
    requires target.depth > 0 ==> Key(target.depth - 4, target.path / 16) in tmp
    modifies tmp.Values
    ensures w' == w.(marks := w.marks + iset{At(target.Id())}, tmp := tmp') && w'.TmpOK()
    ensures target.Id() in tmp' && tmp'[target.Id()] == cp
    ensures fresh(tmp'.Values - tmp.Values) && forall id :: id in tmp ==> id in tmp' && tmp'[id] == tmp[id]
  {
    hide Work.NodeOK, Work.List, TreeState.PendingNode, SlotAt, At, Interior;
    var id := target.Id();
    CopiesHaveIds(w);
    if id in tmp {
      MarkedAlready(w, id);
      return tmp[id], tmp, w;
    }
    cp := target.Copy();
    tmp' := tmp[id := cp];
    w' := w.(marks := w.marks + iset{At(id)}, tmp := tmp');
    CopyIsGood(w, w', target, cp);
    JoinIsQuiet(w, w', id);
    Link(tmp, cp, w, w');
  }

  lemma CopiesHaveIds(w: Work)
    requires w.TmpOK()
    ensures w.MarksOK() && forall id :: id in w.tmp ==> w.tmp[id].Id() == id
  {
  }

  lemma MarkedAlready(w: Work, id: Key)
    requires w.MarksOK() && id in w.tmp
    ensures w == w.(marks := w.marks + iset{At(id)})
  {
    assert w.marks + iset{At(id)} == w.marks;
  }

  /** A new node among the copies touches no slot and no list. */
  lemma JoinIsQuiet(w: Work, w': Work, id: Key)
    requires w.MarksOK() && KeyOK(w.s.env, id) && id !in w.tmp && w' == w.(marks := w.marks + iset{At(id)}, tmp := w'.tmp)
    requires w'.tmp.Keys == w.tmp.Keys + {id} && (id.depth > 0 ==> Key(id.depth - 4, id.path / 16) in w.tmp)
    ensures w'.MarksOK() && (id.Parent() in w.tmp ==> id.depth > 0)
    ensures forall k :: k in w.tmp ==> w'.List(k) == w.List(k) && forall i :: 0 <= i < 14 ==>
      (SlotAt(k, i) in w'.marks <==> SlotAt(k, i) in w.marks) && w'.Shown(SlotAt(k, i)) == w.Shown(SlotAt(k, i))
  {
    MarksJoin(w, w', id);
    forall k, i | k in w.tmp && 0 <= i < 14 ensures SlotAt(k, i) != At(id) {
      SlotsApart(k, i, id, 0);
    }
  }

  /** The parent of a new copy, if it has been copied, takes the copy as its child. */
  method Link(tmp: Journal, cp: TreeNode, ghost w: Work, ghost w': Work)
    requires w.TmpOK() && w.tmp == tmp && cp !in tmp.Values && cp !in w.s.saved && cp !in w.s.journal.Values
    requires w'.MarksOK() && w'.NodeOK(cp) && w'.s == w.s && w'.tmp == tmp[cp.Id() := cp]
    requires forall k :: k in tmp ==> w'.List(k) == w.List(k) && forall i :: 0 <= i < 14 ==>
      (SlotAt(k, i) in w'.marks <==> SlotAt(k, i) in w.marks) && w'.Shown(SlotAt(k, i)) == w.Shown(SlotAt(k, i))
    requires forall k :: k in tmp && k == cp.Id().Parent() ==> cp.depth > 0
    modifies tmp.Values
    ensures w'.TmpOK()
  {
    hide Work.SlotsOK, Work.KidsOK, Work.MarksOK, Work.List, Work.Shown, SlotAt;
    var id := cp.Id();
    LinkFacts(cp, w, w');
    if id.Parent() in tmp {
      var p := tmp[id.Parent()];
      p.children := p.children[id.path % 16 := cp];
    }
  }

  lemma LinkFacts(cp: TreeNode, w: Work, w': Work)
    requires w.TmpOK() && w'.NodeOK(cp) && w'.s == w.s && w'.tmp == w.tmp[cp.Id() := cp]
    requires forall k :: k in w.tmp ==> w'.List(k) == w.List(k) && forall i :: 0 <= i < 14 ==>
      (SlotAt(k, i) in w'.marks <==> SlotAt(k, i) in w.marks) && w'.Shown(SlotAt(k, i)) == w.Shown(SlotAt(k, i))
    ensures var id := cp.Id();
      forall k :: k in w.tmp ==> var n := w.tmp[k];
        && n.Id() == k && w'.SlotsOK(k, n.internals) && |n.children| == 16
        && n.versions == w'.List(k)
        && w'.KidsOK(k, if id.depth > 0 && k == id.Parent() then n.children[id.path % 16 := cp] else n.children)
  {
    hide Work.MarksOK, SlotAt, Work.Shown, Work.List;
    forall k | k in w.tmp
      ensures w'.SlotsOK(k, w.tmp[k].internals) && |w.tmp[k].children| == 16
      ensures w'.KidsOK(k, if cp.depth > 0 && k == cp.Id().Parent() then w.tmp[k].children[cp.path % 16 := cp] else w.tmp[k].children)
    {
      assert w.NodeOK(w.tmp[k]);
      SlotsFrame(w, w', k, w.tmp[k].internals);
      KidsStep(w, w', cp.Id(), cp, k, w.tmp[k].children);
    }
  }

  /** Slots are judged by the marks and hashes at their places alone. */
  lemma SlotsFrame(w: Work, w': Work, id: Key, internals: seq<Option<Digest>>)
    requires w.SlotsOK(id, internals) && w'.s.env == w.s.env && w'.s.now == w.s.now
    requires forall i :: 0 <= i < 14 ==>
      (SlotAt(id, i) in w'.marks <==> SlotAt(id, i) in w.marks) && w'.Shown(SlotAt(id, i)) == w.Shown(SlotAt(id, i))
    ensures w'.SlotsOK(id, internals)
  {
    if Interior(w.s.env, id) {
      forall i | 0 <= i < 14 ensures w'.SlotOK(id, i, internals[i]) {
        assert w.SlotOK(id, i, internals[i]);
      }
    }
  }

  /** The pointers of a node once `c` has become the copy of node `top`. */
  lemma KidsStep(w: Work, w': Work, top: Key, c: TreeNode, id: Key, ch: seq<TreeNode?>)
    requires w.KidsOK(id, ch) && KeyOK(w.s.env, id) && KeyOK(w.s.env, top) && w'.s == w.s && w'.tmp == w.tmp[top := c]
    ensures w'.KidsOK(id, if top.depth > 0 && id == top.Parent() then ch[top.path % 16 := c] else ch)
  {
    if id.depth != w.s.env.maxDepth {
      var ch' := if top.depth > 0 && id == top.Parent() then ch[top.path % 16 := c] else ch;
      forall i | 0 <= i < 16 ensures w'.ChildOK(id.Child(i), ch'[i]) {
        assert w.ChildOK(id.Child(i), ch[i]);
      }
    }
  }

  lemma MarksJoin(w: Work, w': Work, id: Key)
    requires w.MarksOK() && KeyOK(w.s.env, id) && w'.s == w.s && w'.ver == w.ver
    requires w'.marks == w.marks + iset{At(id)} && w'.tmp.Keys == w.tmp.Keys + {id}
    requires forall p :: p in w'.filled ==> p in w.filled || p == At(id)
    requires id.depth > 0 ==> Key(id.depth - 4, id.path / 16) in w.tmp
    ensures w'.MarksOK()
  {
  }

  /** The new copy of a node that has none below it. */
  lemma CopyIsGood(w: Work, w': Work, target: TreeNode, cp: TreeNode)
    requires w.MarksOK() && Interior(w.s.env, target.Id()) && At(target.Id()) !in w.filled && target.Id() !in w.tmp
    requires w.s.PendingNode(target) && !target.temporary
    requires cp.env == target.env && cp.Id() == target.Id() && cp.children == target.children
    requires cp.internals == target.internals && cp.versions == target.versions && !cp.temporary
    requires w' == w.(marks := w.marks + iset{At(target.Id())}, tmp := w.tmp[target.Id() := cp])
    ensures w'.NodeOK(cp)
  {
    var id := cp.Id();
    forall i | 0 <= i < 14 ensures w'.SlotOK(id, i, cp.internals[i]) {
      assert SlotAt(id, i) !in w.marks;
    }
    forall i | 0 <= i < 16 ensures w'.ChildOK(id.Child(i), cp.children[i]) {
      assert w.s.ChildPending(id.Child(i), cp.children[i]);
      assert At(id.Child(i)) !in w.marks;
    }
  }

  /** One level of the way down for one key: the node is copied and the slots above the child
      to be changed are emptied. */
  method PlaceNode(tmp: Journal, target: TreeNode, nibble: nat, ghost w: Work)
    returns (tmp': Journal, ghost w': Work)
    requires w.TmpOK() && w.tmp == tmp && Interior(w.s.env, target.Id()) && At(target.Id()) !in w.filled && nibble < 16
    requires w.s.PendingNode(target) && !target.temporary && target !in tmp.Values
    requires target.depth > 0 ==> Key(target.depth - 4, target.path / 16) in tmp
    requires forall p :: p in w.filled ==> !p.IsSlot()
    modifies tmp.Values
    ensures w' == w.(marks := w.marks + iset{At(target.Id())} + SlotsAbove(target.Id(), nibble), tmp := tmp') && w'.TmpOK()
    ensures target.Id() in tmp' && fresh(tmp'.Values - tmp.Values) && forall id :: id in tmp ==> id in tmp' && tmp'[id] == tmp[id]
  {
    var cp;
    ghost var w1;
    cp, tmp', w1 := SetIfNotExist(tmp, target, w);
    w' := w1.(marks := w1.marks + SlotsAbove(target.Id(), nibble));
    MarkNode(cp, nibble, w1, w');
  }

  method MarkNode(cp: TreeNode, nibble: nat, ghost w: Work, ghost w': Work)
    requires w.TmpOK() && cp.Id() in w.tmp && w.tmp[cp.Id()] == cp && Interior(w.s.env, cp.Id()) && nibble < 16
    requires w' == w.(marks := w.marks + SlotsAbove(cp.Id(), nibble))
    requires forall p :: p in w.filled ==> !p.IsSlot()
    modifies cp`internals
    ensures w'.TmpOK()
  {
    ghost var id := cp.Id();
    MarksGrow(w, w', id, nibble);
    forall k | k in w.tmp
      ensures w.NodeOK(w.tmp[k]) && w'.List(k) == w.List(k) && w'.KidsOK(k, w.tmp[k].children)
      ensures w.tmp[k].Id() == k && (k != id ==> w'.SlotsOK(k, w.tmp[k].internals))
    {
      KidsSame(w, w', k, w.tmp[k].children);
      if k != id { SlotsElsewhere(w, w', id, nibble, k, w.tmp[k].internals); }
    }
    hide Work.KidsOK, Work.MarksOK, Work.List;
    ghost var was := cp.internals;
    cp.Mark(nibble);
    SlotsEmptied(w, w', id, nibble, was, cp.internals);
  }

  lemma KidsSame(w: Work, w': Work, id: Key, ch: seq<TreeNode?>)
    requires w.KidsOK(id, ch) && w'.s == w.s && w'.tmp == w.tmp
    ensures w'.KidsOK(id, ch)
  {
    if id.depth != w.s.env.maxDepth {
      forall i | 0 <= i < 16 ensures w'.ChildOK(id.Child(i), ch[i]) {
        assert w.ChildOK(id.Child(i), ch[i]);
      }
    }
  }

  lemma MarksGrow(w: Work, w': Work, id: Key, nibble: nat)
    requires w.MarksOK() && id in w.tmp && nibble < 16
    requires w' == w.(marks := w.marks + SlotsAbove(id, nibble))
    ensures w'.MarksOK()
  {
    hide SlotAt, SlotsAbove;
    SlotsAboveAre(id, nibble);
  }

  lemma SlotsAboveAre(id: Key, nibble: nat)
    requires nibble < 16 && id.depth % 4 == 0
    ensures forall p :: p in SlotsAbove(id, nibble) ==> p.IsSlot()
    ensures forall k: Key, i: nat {:trigger SlotAt(k, i)} :: k.depth % 4 == 0 && i < 14 && SlotAt(k, i) in SlotsAbove(id, nibble) ==> k == id
  {
    forall p | p in SlotsAbove(id, nibble) ensures p.IsSlot() {
      var i :| 0 <= i < 14 && OnPath(nibble, i) && p == SlotAt(id, i);
      SlotsApart(id, i, id, i);
    }
    forall k: Key, i: nat | k.depth % 4 == 0 && i < 14 && SlotAt(k, i) in SlotsAbove(id, nibble) ensures k == id {
      var h :| 0 <= h < 14 && SlotAt(k, i) == SlotAt(id, h);
      SlotsApart(k, i, id, h);
    }
  }

  lemma SlotsElsewhere(w: Work, w': Work, id: Key, nibble: nat, k: Key, internals: seq<Option<Digest>>)
    requires w.SlotsOK(k, internals) && nibble < 16 && k != id && k.depth % 4 == 0 && id.depth % 4 == 0
    requires w' == w.(marks := w.marks + SlotsAbove(id, nibble))
    ensures w'.SlotsOK(k, internals)
  {
    forall i | 0 <= i < 14 ensures SlotAt(k, i) !in SlotsAbove(id, nibble) {
    }
    SlotsFrame(w, w', k, internals);
  }

  lemma SlotsEmptied(w: Work, w': Work, id: Key, nibble: nat, was: seq<Option<Digest>>, internals: seq<Option<Digest>>)
    requires w.SlotsOK(id, was) && nibble < 16 && id.depth % 4 == 0
    requires w' == w.(marks := w.marks + SlotsAbove(id, nibble))
    requires forall p :: p in w.filled ==> !p.IsSlot()
    requires |internals| == 14 && forall s :: 0 <= s < 14 ==> internals[s] == if OnPath(nibble, s) then None else was[s]
    ensures w'.SlotsOK(id, internals)
  {
    if Interior(w.s.env, id) {
      forall i | 0 <= i < 14 ensures w'.SlotOK(id, i, internals[i]) {
        assert w.SlotOK(id, i, was[i]);
        assert SlotAt(id, i) in SlotsAbove(id, nibble) <==> OnPath(nibble, i);
      }
    }
  }

  /** The end of the way down: the leaf is copied, takes its value and replaces what was
      there. */
  method PlaceLeaf(tmp: Journal, target: TreeNode, val: Digest, version: nat, ghost w: Work)
    returns (tmp': Journal, ghost w': Work)
    requires version == w.ver && w.TmpOK() && w.tmp == tmp && target.depth == w.s.env.maxDepth && target.Id() !in tmp
    requires w.s.PendingNode(target) && !target.temporary && target !in tmp.Values && Latest(VersionsAt(w.s.m, target.Id())) < w.ver
    requires target.depth > 0 && Key(target.depth - 4, target.path / 16) in tmp
    modifies tmp.Values
    ensures w' == w.(marks := w.marks + iset{At(target.Id())}, filled := w.filled[At(target.Id()) := val], tmp := tmp')
    ensures w'.TmpOK()
    ensures target.Id() in tmp' && fresh(tmp'.Values - tmp.Values) && forall id :: id in tmp ==> id in tmp' && tmp'[id] == tmp[id]
  {
    hide Work.NodeOK, Work.List, TreeState.PendingNode, SlotAt, At, Interior, VersionsAt, Publish;
    var id := target.Id();
    CopiesHaveIds(w);
    var leaf := target.Copy();
    leaf.Set(val, version);
    tmp' := tmp[id := leaf];
    w' := w.(marks := w.marks + iset{At(id)}, filled := w.filled[At(id) := val], tmp := tmp');
    LeafIsQuiet(w, w', id, val);
    LeafIsGood(w, w', target, leaf, val);
    Link(tmp, leaf, w, w');
  }

  lemma LeafIsQuiet(w: Work, w': Work, id: Key, val: Digest)
    requires w.MarksOK() && KeyOK(w.s.env, id) && id !in w.tmp
    requires w' == w.(marks := w.marks + iset{At(id)}, filled := w.filled[At(id) := val], tmp := w'.tmp)
    requires w'.tmp.Keys == w.tmp.Keys + {id} && (id.depth > 0 ==> Key(id.depth - 4, id.path / 16) in w.tmp)
    ensures w'.MarksOK() && (id.Parent() in w.tmp ==> id.depth > 0)
    ensures forall k :: k in w.tmp ==> w'.List(k) == w.List(k) && forall i :: 0 <= i < 14 ==>
      (SlotAt(k, i) in w'.marks <==> SlotAt(k, i) in w.marks) && w'.Shown(SlotAt(k, i)) == w.Shown(SlotAt(k, i))
  {
    MarksJoin(w, w', id);
    forall k, i | k in w.tmp && 0 <= i < 14 ensures SlotAt(k, i) != At(id) {
      SlotsApart(k, i, id, 0);
    }
  }

  lemma LeafIsGood(w: Work, w': Work, target: TreeNode, leaf: TreeNode, val: Digest)
    requires w.s.env.Valid() && target.depth == w.s.env.maxDepth && w.s.PendingNode(target) && !target.temporary
    requires w.s.journal != map[] ==> w.s.ver == w.ver
    requires Latest(VersionsAt(w.s.m, target.Id())) < w.ver
    requires leaf.env == target.env && leaf.Id() == target.Id() && leaf.children == target.children && !leaf.temporary
    requires leaf.internals == target.internals && leaf.versions == Publish(target.versions, VersionInfo(w.ver, val))
    requires w'.s == w.s && w'.ver == w.ver && w'.filled == w.filled[At(target.Id()) := val]
    ensures w'.NodeOK(leaf)
  {
  }

  /** More nodes of the tree in memory make no difference to the copies. */
  lemma WorkMono(w: Work, w': Work)
    requires w.TmpOK() && w' == w.(s := w.s.(saved := w'.s.saved)) && w.s.saved <= w'.s.saved
    requires w.tmp.Values !! w'.s.saved
    ensures w'.TmpOK()
  {
    forall id | id in w.tmp ensures w'.NodeOK(w.tmp[id]) {
      var n := w.tmp[id];
      assert w.NodeOK(n);
      SlotsFrame(w, w', id, n.internals);
      if n.depth != w.s.env.maxDepth {
        forall i | 0 <= i < 16 ensures w'.ChildOK(id.Child(i), n.children[i]) {
          assert w.ChildOK(id.Child(i), n.children[i]);
        }
      }
    }
  }

  // ---- phase two: filling slots and publishing nodes ----

  /** Test-and-set of one slot. */
  method FillNode(node: TreeNode, idx: nat, left: Digest, right: Digest, ghost w: Work)
    returns (hash: Digest, setBefore: bool, ghost w': Work)
    requires w.TmpOK() && node.Id() in w.tmp && w.tmp[node.Id()] == node && Interior(w.s.env, node.Id())
    requires idx < 14 && SlotAt(node.Id(), idx) in w.marks
    modifies node`internals
    ensures w'.TmpOK() && (setBefore <==> SlotAt(node.Id(), idx) in w.filled)
    ensures if setBefore then w' == w
            else hash == w.s.env.hash(left, right) && w' == w.(filled := w.filled[SlotAt(node.Id(), idx) := hash])
  {
    ghost var id := node.Id();
    assert w.NodeOK(node);
    assert w.SlotOK(id, idx, node.internals[idx]);
    w' := w;
    if SlotAt(id, idx) !in w.filled {
      w' := w.(filled := w.filled[SlotAt(id, idx) := w.s.env.hash(left, right)]);
      FilledElsewhere(w, w', id, idx);
      SlotFilled(w, w', id, idx, node.internals);
    }
    hide Work.KidsOK, Work.MarksOK, Work.List, Work.SlotsOK, Work.SlotOK, SlotAt;
    hash, setBefore := node.SetInternal(idx, left, right);
  }

  lemma SlotFilled(w: Work, w': Work, id: Key, idx: nat, internals: seq<Option<Digest>>)
    requires w.SlotsOK(id, internals) && idx < 14 && SlotAt(id, idx) in w.marks && id.depth % 4 == 0
    requires w' == w.(filled := w'.filled) && SlotAt(id, idx) in w'.filled
    requires w'.filled == w.filled[SlotAt(id, idx) := w'.filled[SlotAt(id, idx)]]
    ensures w'.SlotsOK(id, internals[idx := Some(w'.filled[SlotAt(id, idx)])])
  {
    if Interior(w.s.env, id) {
      var slots := internals[idx := Some(w'.filled[SlotAt(id, idx)])];
      forall i | 0 <= i < 14 ensures w'.SlotOK(id, i, slots[i]) {
        assert w.SlotOK(id, i, internals[i]);
        SlotsApart(id, i, id, idx);
      }
    }
  }

  /** Filling a slot concerns one node only. */
  lemma FilledElsewhere(w: Work, w': Work, id: Key, idx: nat)
    requires w.TmpOK() && id in w.tmp && idx < 14 && SlotAt(id, idx) in w.marks
    requires w' == w.(filled := w'.filled) && SlotAt(id, idx) in w'.filled
    requires w'.filled == w.filled[SlotAt(id, idx) := w'.filled[SlotAt(id, idx)]]
    ensures w'.MarksOK()
    ensures forall k :: k in w.tmp ==>
      && w.tmp[k].Id() == k && w.NodeOK(w.tmp[k]) && w'.List(k) == w.List(k)
      && w'.KidsOK(k, w.tmp[k].children) && (k != id ==> w'.SlotsOK(k, w.tmp[k].internals))
  {
    forall k | k in w.tmp
      ensures w'.List(k) == w.List(k) && w'.KidsOK(k, w.tmp[k].children) && (k != id ==> w'.SlotsOK(k, w.tmp[k].internals))
    {
      assert w.NodeOK(w.tmp[k]);
      KidsSame(w, w', k, w.tmp[k].children);
      SlotsApart(id, idx, k, 0);
      if k != id {
        forall i | 0 <= i < 14 ensures SlotAt(k, i) != SlotAt(id, idx) { SlotsApart(id, idx, k, i); }
        SlotsFrame(w, w', k, w.tmp[k].internals);
      }
    }
  }

  /** Publishing a node for the pending version, for the first time or again. */
  method PublishNode(node: TreeNode, hash: Digest, version: nat, ghost w: Work) returns (ghost w': Work)
    requires w.TmpOK() && node.Id() in w.tmp && w.tmp[node.Id()] == node && version == w.ver
    requires Latest(VersionsAt(w.s.m, node.Id())) < w.ver
    modifies node`versions
    ensures w' == w.(filled := w.filled[At(node.Id()) := hash]) && w'.TmpOK()
  {
    ghost var id := node.Id();
    w' := w.(filled := w.filled[At(id) := hash]);
    assert w.NodeOK(node);
    PublishedElsewhere(w, w', id);
    PublishedList(w, w', id, node.versions);
    hide Work.KidsOK, Work.MarksOK, Work.List, Work.SlotsOK, Work.SlotOK, SlotAt;
    node.Set(hash, version);
  }

  lemma PublishedList(w: Work, w': Work, id: Key, versions: seq<VersionInfo>)
    requires versions == w.List(id) && KeyOK(w.s.env, id) && Latest(VersionsAt(w.s.m, id)) < w.ver
    requires w.s.journal != map[] ==> w.s.ver == w.ver
    requires At(id) in w'.filled && w'.s == w.s && w'.ver == w.ver
    ensures Publish(versions, VersionInfo(w.ver, w'.filled[At(id)])) == w'.List(id)
  {
  }

  lemma PublishedElsewhere(w: Work, w': Work, id: Key)
    requires w.TmpOK() && id in w.tmp && At(id) in w'.filled
    requires w' == w.(filled := w.filled[At(id) := w'.filled[At(id)]])
    ensures w'.MarksOK()
    ensures forall k :: k in w.tmp ==>
      && w.tmp[k].Id() == k && w.NodeOK(w.tmp[k]) && (k != id ==> w'.List(k) == w.List(k))
      && w'.KidsOK(k, w.tmp[k].children) && w'.SlotsOK(k, w.tmp[k].internals)
  {
    forall k | k in w.tmp
      ensures (k != id ==> w'.List(k) == w.List(k)) && w'.KidsOK(k, w.tmp[k].children) && w'.SlotsOK(k, w.tmp[k].internals)
    {
      assert w.NodeOK(w.tmp[k]);
      KidsSame(w, w', k, w.tmp[k].children);
      forall i | 0 <= i < 14 ensures SlotAt(k, i) != At(id) { SlotsApart(k, i, id, 0); }
      SlotsFrame(w, w', k, w.tmp[k].internals);
    }
  }
}
