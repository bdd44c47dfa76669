/**
The sorted set itself: a pool of nodes handed out by a bump counter, a member table, and the
operations that update both in place. The ghost field `tree` is the value the node array stands for.
*/
module BTree {
  import opened ByteStrings
  import opened Cells
  import opened Decimal
  import opened Options
  import opened BTreeShape
  import opened BTreeLaws
  import opened BTreeNodes
  import opened BTreeSplits
  import opened BTreeTable
  import opened BTreeTies
  import opened BTreeGrowth
  import RespSpec
  import Replies

  const NIL: nat := 0xffff_ffff
  const MAX_MEMBER: nat := 48
  const MAX_ENTRIES: nat := 4096

  class SortedSet {
    const nodes: array<Node>
    const members: array<Member>
    const maxNodes: nat
    const maxMembers: nat
    var root: nat
    var freeNode: nat
    var memberCount: nat
    ghost var tree: Option<Tree>

    ghost predicate Pools()
      reads this
    {
      && nodes.Length == maxNodes == 2 * maxMembers + 4
      && members.Length == maxMembers
      && 1 <= maxMembers <= MAX_ENTRIES
      && memberCount <= maxMembers
      && freeNode <= maxNodes
    }

    ghost function Members(): seq<Member>
      requires Pools()
      reads this, members
    {
      members[..memberCount]
    }

    ghost function Names(): seq<Bytes>
      requires Pools()
      reads this, members
    {
      NamesOf(Members())
    }

    /** The tree holds exactly the first n members, each once, under every tree invariant. */
    ghost predicate Indexes(n: nat)
      requires Pools()
      reads this, nodes, members
    {
      && n <= memberCount
      && (n == 0 ==> tree.None? && root == NIL && freeNode == 0)
      && (n > 0 ==> tree.Some? && tree.value.id == root && Stores(nodes[..], tree.value, freeNode, Members(), n))
    }

    ghost predicate Valid()
      reads this, nodes, members
    {
      Pools() && Indexes(memberCount) && DistinctNames(Members())
    }

    /** The abstract value: every member with its score. */
    ghost function Scores(): map<Bytes, int64>
      requires Valid()
      reads this, nodes, members
    {
      ScoresOf(Members())
    }

    /** The in-order listing of the tree. */
    ghost function Listing(): seq<Entry>
      requires Valid()
      reads this, nodes, members
    {
      if tree.None? then [] else Entries(tree.value)
    }

    /** The listing is in (score, member) order. */
    ghost predicate InMemberOrder()
      requires Valid()
      reads this, nodes, members
    {
      Sorted(Listing(), Names())
    }

    constructor (max: nat)
      requires max > 0
      ensures Valid() && Scores() == map[] && Listing() == []
      ensures maxMembers == if max > 4096 then 4096 else max
      ensures fresh(nodes) && fresh(members)
    {
      var m := if max > MAX_ENTRIES then MAX_ENTRIES else max;
      maxMembers := m;
      maxNodes := m * 2 + 4;
      nodes := new Node[m * 2 + 4](_ => ZeroNode);
      members := new Member[m](_ => Member([], 0));
      root := NIL;
      freeNode := 0;
      memberCount := 0;
      tree := None;
    }

    /** The node array now stands for r, or the pool was too small for it. */
    ghost predicate Inserted(ok: bool, r: Grown<Tree>)
      requires Pools()
      reads this, nodes
    {
      && (ok ==> freeNode == r.free && Rep(nodes[..], r.it))
      && (r.free <= maxNodes ==> ok)
    }

    method AllocNode() returns (cell: nat)
      requires Pools()
      modifies this`freeNode
      ensures Pools()
      ensures old(freeNode) < maxNodes ==> cell == old(freeNode) && freeNode == old(freeNode) + 1
      ensures old(freeNode) >= maxNodes ==> cell == NIL && freeNode == old(freeNode)
    {
      if freeNode >= maxNodes {
        return NIL;
      }
      cell := freeNode;
      freeNode := freeNode + 1;
    }

    method LeafFindPos(node: Node, e: Entry, ghost es: seq<Entry>, ghost names: seq<Bytes>) returns (pos: nat)
      requires Pools() && names == Names()
      requires LeafNode(node, es)
      requires e.midx < memberCount && forall x :: x in es ==> x.midx < memberCount
      ensures pos == LeafPos(es, e, names)
    {
      pos := 0;
      while pos < node.count
        invariant pos <= node.count
        invariant forall j :: 0 <= j < pos ==> ScoreMemberCmp(e, es[j], names) > 0
      {
        assert es[pos] in es;
        var x := Entry(node.keys[pos], node.ptrs[pos]);
        var cmp := if e.score != x.score then (if e.score < x.score then -1 else 1)
                   else BytesCmp(members[e.midx].data, members[x.midx].data);
        if cmp <= 0 {
          LeafPosIs(es, e, names, pos);
          return;
        }
        pos := pos + 1;
      }
      LeafPosIs(es, e, names, pos);
    }

    /** What a split of t leaves behind: nothing but a refusal when the pool is exhausted. */
    ghost predicate SplitDone(t: Tree, sibling: nat, promoted: int64, freeBefore: nat)
      requires Pools() && Full(t)
      reads this, nodes
    {
      if freeBefore >= maxNodes then sibling == NIL
      else
        && sibling == freeBefore && freeNode == sibling + 1
        && promoted == Split(t, sibling).promoted
        && Rep(nodes[..], Split(t, sibling).left)
        && Rep(nodes[..], Split(t, sibling).right)
    }

    method SplitLeaf(c: nat, ghost t: Tree) returns (sibling: nat, promoted: int64)
      requires Pools()
      requires Rep(nodes[..], t) && t.id == c < freeNode && t.Leaf? && |t.entries| == MAX_KEYS
      modifies nodes, this`freeNode
      ensures Pools() && SplitDone(t, sibling, promoted, old(freeNode))
      ensures forall k :: 0 <= k < maxNodes && k != c && k != sibling ==> nodes[k] == old(nodes[k])
    {
      promoted := 0;
      sibling := AllocNode();
      if sibling == NIL {
        return;
      }
      var leaf := nodes[c];
      var mid := (leaf.count + 1) / 2;
      promoted := leaf.keys[mid];
      var right: Node := ZeroNode.(isLeaf := true, count := leaf.count - mid);
      var i := 0;
      while i < leaf.count - mid
        invariant i <= leaf.count - mid && right.isLeaf && right.count == leaf.count - mid
        invariant forall k :: 0 <= k < i ==> right.keys[k] == leaf.keys[mid + k] && right.ptrs[k] == leaf.ptrs[mid + k]
      {
        right := right.(keys := right.keys[i := leaf.keys[mid + i]], ptrs := right.ptrs[i := leaf.ptrs[mid + i]]);
        i := i + 1;
      }
      nodes[c] := leaf.(count := mid);
      nodes[sibling] := right;
    }

    method SplitInternal(c: nat, ghost t: Tree) returns (sibling: nat, promoted: int64)
      requires Pools()
      requires Rep(nodes[..], t) && t.id == c && t.Inner? && Len(t.kids) == MAX_KEYS + 1
      requires Once(Ids(t), freeNode)
      modifies nodes, this`freeNode
      ensures Pools() && SplitDone(t, sibling, promoted, old(freeNode))
      ensures forall k :: 0 <= k < maxNodes && k != c && k != sibling ==> nodes[k] == old(nodes[k])
    {
      promoted := 0;
      sibling := AllocNode();
      if sibling == NIL {
        return;
      }
      var node := nodes[c];
      var mid := MAX_KEYS / 2;
      promoted := node.keys[mid];
      var right: Node := ZeroNode.(count := node.count - mid - 1);
      var i := 0;
      while i < right.count
        invariant i <= right.count == node.count - mid - 1 && !right.isLeaf
        invariant forall k :: 0 <= k < i ==> right.keys[k] == node.keys[mid + 1 + k]
      {
        right := right.(keys := right.keys[i := node.keys[mid + 1 + i]]);
        i := i + 1;
      }
      i := 0;
      while i <= right.count
        invariant i <= right.count + 1 && right.count == node.count - mid - 1 && !right.isLeaf
        invariant forall k :: 0 <= k < right.count ==> right.keys[k] == node.keys[mid + 1 + k]
        invariant forall k :: 0 <= k < i ==> right.ptrs[k] == node.ptrs[mid + 1 + k]
      {
        right := right.(ptrs := right.ptrs[i := node.ptrs[mid + 1 + i]]);
        i := i + 1;
      }
      assert t.id in Ids(t);
      nodes[c] := node.(count := mid);
      nodes[sibling] := right;
      SplitInternalRep(old(nodes[..]), nodes[..], t, sibling);
    }

    /** The C loop that shifts keys and children of a node to make room for a new sibling. */
    static method ShiftIn(node: Node, i: nat, promoted: int64, sibling: nat) returns (r: Node)
      requires i <= node.count < MAX_KEYS
      ensures Widened(node, r, i, promoted, sibling)
    {
      hide InsertAt;
      var keys: seq<int64>, ptrs: seq<nat>, j := node.keys, node.ptrs, node.count;
      while j > i
        invariant i <= j <= node.count && |keys| == |node.keys| && |ptrs| == |node.ptrs|
        invariant forall k :: 0 <= k < j ==> keys[k] == node.keys[k]
        invariant forall k :: 0 <= k <= j ==> ptrs[k] == node.ptrs[k]
        invariant forall k :: j < k <= node.count ==> keys[k] == node.keys[k - 1]
        invariant forall k :: j + 1 < k <= node.count + 1 ==> ptrs[k] == node.ptrs[k - 1]
      {
        keys := keys[j := keys[j - 1]];
        ptrs := ptrs[j + 1 := ptrs[j]];
        j := j - 1;
      }
      keys := keys[i := promoted];
      ptrs := ptrs[i + 1 := sibling];
      r := node.(keys := keys, ptrs := ptrs, count := node.count + 1);
      ShiftedIs(node.keys, keys, node.count, i, promoted);
      ShiftedIs(node.ptrs, ptrs, node.count + 1, i + 1, sibling);
    }

    static method LeafInsertAt(node: Node, pos: nat, e: Entry, ghost es: seq<Entry>) returns (r: Node)
      requires LeafNode(node, es) && pos <= node.count < MAX_KEYS
      ensures LeafNode(r, InsertAt(es, pos, e))
    {
      hide InsertAt, LeafNode;
      LeafCount(node, es);
      var keys: seq<int64>, ptrs: seq<nat>, i := node.keys, node.ptrs, node.count;
      while i > pos
        invariant pos <= i <= node.count && |keys| == |node.keys| && |ptrs| == |node.ptrs|
        invariant forall k :: 0 <= k < i ==> keys[k] == node.keys[k] && ptrs[k] == node.ptrs[k]
        invariant forall k :: i < k <= node.count ==> keys[k] == node.keys[k - 1] && ptrs[k] == node.ptrs[k - 1]
      {
        keys := keys[i := keys[i - 1]];
        ptrs := ptrs[i := ptrs[i - 1]];
        i := i - 1;
      }
      keys := keys[pos := e.score];
      ptrs := ptrs[pos := e.midx];
      r := node.(keys := keys, ptrs := ptrs, count := node.count + 1);
      LeafShifted(node, r, es, pos, e);
    }

    /** Puts e below the part-filled node in cell c; refuses only when the pool is exhausted. */
    method InsertNonfull(c: nat, e: Entry, ghost t: Tree, ghost names: seq<Bytes>) returns (ok: bool)
      requires Pools() && names == Names()
      requires Rep(nodes[..], t) && t.id == c && Shaped(t) && !Full(t) && Once(Ids(t), freeNode)
      requires e.midx < memberCount && MidxBelow(t, memberCount)
      modifies nodes, this`freeNode
      ensures Pools()
      ensures Inserted(ok, Insert(t, e, old(freeNode), names))
      ensures forall k :: 0 <= k < old(freeNode) && k !in Ids(t) ==> nodes[k] == old(nodes[k])
      decreases Height(t), 0
    {
      var node := nodes[c];
      assert t.id in Ids(t);
      if node.isLeaf {
        var pos := LeafFindPos(node, e, t.entries, names);
        node := LeafInsertAt(node, pos, e, t.entries);
        nodes[c] := node;
        return true;
      }

      var i := PickChild(node, e.score, t.kids);
      ChildNode(nodes[..], t, i, memberCount);
      ChildFacts(t, i, freeNode, memberCount);
      ok := InsertBelow(node, c, i, node.ptrs[i], e, t, Nth(t.kids, i), names);
    }

    /** The first child whose separator is not below the score. */
    static method PickChild(node: Node, score: int64, ghost f: Forest) returns (i: nat)
      requires InnerNode(node, f)
      ensures i == Pick(f, score)
    {
      hide Pick;
      i := 0;
      while i < node.count && score > node.keys[i]
        invariant i <= node.count
        invariant forall j :: 0 <= j < i ==> score > Seps(f)[j]
      {
        assert node.keys[..node.count][i] == Seps(f)[i];
        i := i + 1;
      }
      assert i < node.count ==> node.keys[..node.count][i] == Seps(f)[i];
      PickIs(f, score, i);
    }

    /** Splits the full i-th child of the node in cell c and shifts the new sibling into that node. */
    method SplitChild(node: Node, c: nat, i: nat, child: nat, ghost t: Tree, ghost ct: Tree)
      returns (sibling: nat, promoted: int64)
      requires Pools()
      requires Rep(nodes[..], t) && t.id == c && t.Inner? && Shaped(t) && !Full(t) && Once(Ids(t), freeNode)
      requires node == nodes[c] && i < Len(t.kids) && ct == Nth(t.kids, i)
      requires Rep(nodes[..], ct) && ct.id == child && Shaped(ct) && Full(ct) && Once(Ids(ct), freeNode)
      modifies nodes, this`freeNode
      ensures Pools()
      ensures SplitDone(ct, sibling, promoted, old(freeNode))
      ensures sibling != NIL ==> Widened(node, nodes[c], i, promoted, sibling)
      ensures forall k :: 0 <= k < old(freeNode) && k != c && k != child ==> nodes[k] == old(nodes[k])
    {
      ghost var free := freeNode;
      ChildCells(t, i, free);
      assert ct.id in Ids(ct);
      if nodes[child].isLeaf {
        sibling, promoted := SplitLeaf(child, ct);
      } else {
        sibling, promoted := SplitInternal(child, ct);
      }
      if sibling == NIL {
        return;
      }
      ghost var halves := nodes[..];
      nodes[c] := ShiftIn(node, i, promoted, sibling);
      HalvesKeep(halves, nodes[..], t, i, free);
    }

    /** The descent step: split the chosen child if it is full, then go on in the right half. */
    method InsertBelow(node: Node, c: nat, i: nat, child: nat, e: Entry,
                       ghost t: Tree, ghost ct: Tree, ghost names: seq<Bytes>) returns (ok: bool)
      requires Pools() && names == Names()
      requires Rep(nodes[..], t) && t.id == c && t.Inner? && Shaped(t) && !Full(t) && Once(Ids(t), freeNode)
      requires node == nodes[c] && i == Pick(t.kids, e.score) && ct == Nth(t.kids, i)
      requires Rep(nodes[..], ct) && ct.id == child && Shaped(ct) && Once(Ids(ct), freeNode)
      requires e.midx < memberCount && MidxBelow(ct, memberCount) && Height(ct) < Height(t)
      modifies nodes, this`freeNode
      ensures Pools()
      ensures Inserted(ok, Insert(t, e, old(freeNode), names))
      ensures forall k :: 0 <= k < old(freeNode) && k !in Ids(t) ==> nodes[k] == old(nodes[k])
      decreases Height(ct), 3
    {
      ghost var a, free := nodes[..], freeNode;
      ChildCells(t, i, free);
      InsertInnerIs(t, i, e, free, names);
      if nodes[child].count < MAX_KEYS {
        ok := InsertNonfull(child, e, ct, names);
        if ok {
          PutChild(a, nodes[..], t, i, Insert(ct, e, free, names).it, free);
        }
        return;
      }

      ok := InsertSplit(node, c, i, child, e, t, ct, names);
    }

    /** The descent step into a full child. */
    method InsertSplit(node: Node, c: nat, i: nat, child: nat, e: Entry,
                       ghost t: Tree, ghost ct: Tree, ghost names: seq<Bytes>) returns (ok: bool)
      requires Pools() && names == Names()
      requires Rep(nodes[..], t) && t.id == c && t.Inner? && Shaped(t) && !Full(t) && Once(Ids(t), freeNode)
      requires node == nodes[c] && i == Pick(t.kids, e.score) && ct == Nth(t.kids, i)
      requires Rep(nodes[..], ct) && ct.id == child && Shaped(ct) && Full(ct) && Once(Ids(ct), freeNode)
      requires e.midx < memberCount && MidxBelow(ct, memberCount)
      modifies nodes, this`freeNode
      ensures Pools()
      ensures Inserted(ok, Insert(t, e, old(freeNode), names))
      ensures forall k :: 0 <= k < old(freeNode) && k !in Ids(t) ==> nodes[k] == old(nodes[k])
      decreases Height(ct), 2
    {
      hide Rep, MidxBelow, Insert;
      ghost var a, free := nodes[..], freeNode;
      ChildCells(t, i, free);
      InsertInnerIs(t, i, e, free, names);
      var sibling, promoted := SplitChild(node, c, i, child, t, ct);
      if sibling == NIL {
        InsertNeedsCell(ct, e, free, names);
        return false;
      }
      ok := InsertHalf(child, sibling, promoted, e, ct, free, names);
      if ok {
        PutPair(a, nodes[..], t, i, InsertChild(ct, e, free, names).it, free);
      }
    }

    /** Goes on in the half of the split child that takes the score. */
    method InsertHalf(child: nat, sibling: nat, promoted: int64, e: Entry,
                      ghost ct: Tree, ghost free: nat, ghost names: seq<Bytes>) returns (ok: bool)
      requires Pools() && names == Names()
      requires Shaped(ct) && Full(ct) && ct.id == child && Once(Ids(ct), free)
      requires free < maxNodes && SplitDone(ct, sibling, promoted, free)
      requires e.midx < memberCount && MidxBelow(ct, memberCount)
      modifies nodes, this`freeNode
      ensures Pools()
      ensures InsertChild(ct, e, free, names).free <= maxNodes ==> ok
      ensures ok ==> var g := InsertChild(ct, e, free, names);
                     && freeNode == g.free
                     && PairRep(nodes[..], g.it)
      ensures forall k :: 0 <= k < free && k !in Ids(ct) ==> nodes[k] == old(nodes[k])
      decreases Height(ct), 1
    {
      hide Rep, Insert, Shaped, Once, Ids;
      ghost var a, s := nodes[..], Split(ct, free);
      SplitFacts(ct, free, memberCount);
      InsertChildIs(ct, e, free, names);
      if e.score >= promoted {
        ok := InsertNonfull(sibling, e, s.right, names);
        if ok { RightDone(a, nodes[..], ct, e, free, names); }
      } else {
        ok := InsertNonfull(child, e, s.left, names);
        if ok { LeftDone(a, nodes[..], ct, e, free, names); }
      }
    }

    /** Insertion below a non-empty root; a full root is split under a new one first. */
    method InsertAtRoot(e: Entry, ghost t: Tree, ghost names: seq<Bytes>) returns (ok: bool)
      requires Pools() && names == Names()
      requires Rep(nodes[..], t) && t.id == root && Shaped(t) && Once(Ids(t), freeNode)
      requires e.midx < memberCount && MidxBelow(t, memberCount)
      modifies nodes, this`freeNode, this`root
      ensures Pools()
      ensures Inserted(ok, InsertRoot(t, e, old(freeNode), names))
      ensures ok ==> root == InsertRoot(t, e, old(freeNode), names).it.id
    {
      if nodes[root].count < MAX_KEYS {
        ok := InsertNonfull(root, e, t, names);
        return;
      }
      ghost var free := freeNode;
      InsertNeedsCell(t, e, free + 1, names);
      var sibling, promoted := SplitRoot(t);
      if sibling == NIL {
        return false;
      }
      ok := InsertUnderNewRoot(sibling, promoted, e, t, free, names);
    }

    /** Splits the full root; its halves become the children of a new root. */
    method SplitRoot(ghost t: Tree) returns (sibling: nat, promoted: int64)
      requires Pools()
      requires Rep(nodes[..], t) && t.id == root && Shaped(t) && Full(t) && Once(Ids(t), freeNode)
      modifies nodes, this`freeNode, this`root
      ensures Pools()
      ensures sibling == NIL <==> old(freeNode) + 2 > maxNodes
      ensures sibling != NIL ==>
                && sibling == old(freeNode) + 1 && freeNode == old(freeNode) + 2 && root == old(freeNode)
                && promoted == Split(t, sibling).promoted
                && Rep(nodes[..], NewRoot(t, root))
    {
      ghost var free := freeNode;
      var newRoot := AllocNode();
      assert t.id in Ids(t);
      if nodes[root].isLeaf {
        sibling, promoted := SplitLeaf(root, t);
      } else {
        sibling, promoted := SplitInternal(root, t);
      }
      if sibling == NIL || newRoot == NIL {
        return;
      }
      ghost var a := nodes[..];
      nodes[newRoot] := ZeroNode.(count := 1, keys := [promoted, 0, 0], ptrs := [root, sibling, 0, 0]);
      root := newRoot;
      NewRootRep(a, nodes[..], t, free);
    }

    /** Only the right half is entered directly: an entry for the left half descends from the new root. */
    method InsertUnderNewRoot(sibling: nat, promoted: int64, e: Entry,
                              ghost t: Tree, ghost free: nat, ghost names: seq<Bytes>) returns (ok: bool)
      requires Pools() && names == Names() && Shaped(t) && Full(t) && Once(Ids(t), free)
      requires freeNode == free + 2 && sibling == free + 1 && root == free
      requires promoted == Split(t, sibling).promoted
      requires Rep(nodes[..], NewRoot(t, free))
      requires e.midx < memberCount && MidxBelow(t, memberCount)
      modifies nodes, this`freeNode
      ensures Pools()
      ensures Inserted(ok, InsertRoot(t, e, free, names))
    {
      ghost var s, top, a := Split(t, sibling), NewRoot(t, free), nodes[..];
      SplitFacts(t, sibling, memberCount);
      SplitCells(t, sibling);
      PairRepOfRoot(a, t, free);
      if e.score >= promoted {
        ok := InsertNonfull(sibling, e, s.right, names);
        if ok { RightUnderRoot(a, nodes[..], t, e, free, names); }
      } else {
        NewRootFacts(t, free, memberCount);
        LeftIsFromRoot(t, e, free, names);
        ok := InsertNonfull(root, e, top, names);
      }
    }

    /** Indexes the first member: a leaf of its own. */
    method InsertFirst(e: Entry)
      requires Pools() && Indexes(0)
      requires 0 < memberCount && e == Entry(members[0].score, 0)
      modifies nodes, this`freeNode, this`root, this`tree
      ensures Pools() && Indexes(1) && freeNode == 1 && tree == Some(Leaf(0, [e]))
    {
      var cell := AllocNode();
      root := cell;
      var node: Node := nodes[cell];
      nodes[cell] := node.(isLeaf := true, count := 1, keys := node.keys[0 := e.score], ptrs := node.ptrs[0 := e.midx]);
      tree := Some(Leaf(0, [e]));
      FirstLeafGood(e, Names());
      assert TableOf(Members())[..1] == [e];
    }

    /** Indexes member n; the pool always has room for it. */
    method InsertEntry(e: Entry, ghost n: nat) returns (ok: bool)
      requires Pools() && Indexes(n)
      requires n < memberCount && e == Entry(members[n].score, n)
      modifies nodes, this`freeNode, this`root, this`tree
      ensures Pools() && Indexes(n + 1)
      ensures ok && freeNode <= 2 * (n + 1) - 1
    {
      hide Stores, InsertRoot, Rep, Shaped, Ids, Once, MidxBelow;
      if n > 0 { StoresNext(nodes[..], tree.value, freeNode, Members(), n, e); }
      if root == NIL {
        InsertFirst(e);
        return true;
      }
      ghost var a, t, free, names := nodes[..], tree.value, freeNode, Names();
      ok := InsertAtRoot(e, t, names);
      tree := Some(InsertRoot(t, e, free, names).it);
      StoresThen(a, nodes[..], t, free, Members(), n, e);
    }

    method Clear()
      requires Pools()
      modifies nodes, this`freeNode, this`root, this`tree
      ensures Pools() && Indexes(0)
    {
      forall k | 0 <= k < nodes.Length { nodes[k] := ZeroNode; }
      root := NIL;
      freeNode := 0;
      tree := None;
    }

    /** Forgets every node and indexes the members again in table order. */
    method Rebuild()
      requires Pools() && memberCount > 0
      modifies nodes, this`freeNode, this`root, this`tree
      ensures Pools() && Indexes(memberCount)
    {
      hide Stores;
      Clear();
      for i := 0 to memberCount
        invariant Pools() && Indexes(i)
      {
        var _ := InsertEntry(Entry(members[i].score, i), i);
      }
    }

    method FindInLeaf(node: Node, member: Bytes, ghost es: seq<Entry>) returns (r: Option<nat>)
      requires Pools() && LeafNode(node, es) && forall e :: e in es ==> e.midx < memberCount
      ensures r.Some? ==> r.value < memberCount && members[r.value].data == member
      ensures r.None? ==> forall e :: e in es ==> members[e.midx].data != member
    {
      var i := 0;
      while i < node.count
        invariant i <= node.count
        invariant forall j :: 0 <= j < i ==> members[es[j].midx].data != member
      {
        assert es[i] in es;
        if members[node.ptrs[i]].data == member {
          return Some(node.ptrs[i]);
        }
        i := i + 1;
      }
      return None;
    }

    /** Finds a member below cell c by visiting every leaf: the tree is ordered by score, not by name. */
    method FindMember(c: nat, member: Bytes, ghost t: Tree) returns (r: Option<nat>)
      requires Pools() && Rep(nodes[..], t) && t.id == c && MidxBelow(t, memberCount)
      ensures r.Some? ==> r.value < memberCount && members[r.value].data == member
      ensures r.None? ==> forall e :: e in Entries(t) ==> members[e.midx].data != member
      decreases Height(t)
    {
      var node := nodes[c];
      if node.isLeaf {
        r := FindInLeaf(node, member, t.entries);
        return;
      }
      ghost var f := t.kids;
      var i := 0;
      while i <= node.count
        invariant i <= node.count + 1
        invariant forall e :: e in EntriesBefore(f, i) ==> e.midx < memberCount && members[e.midx].data != member
      {
        ghost var ct := Nth(f, i);
        RepNth(nodes[..], f, i);
        EntriesBeforeStep(f, i);
        GraftEntries(f, i, Last(ct));
        assert node.ptrs[..node.count + 1][i] == KidIds(f)[i];
        r := FindMember(node.ptrs[i], member, ct);
        if r.Some? {
          return;
        }
        i := i + 1;
      }
      EntriesBeforeAll(f);
      return None;
    }

    method Lookup(member: Bytes) returns (r: Option<nat>)
      requires Valid()
      ensures r.Some? <==> member in Scores()
      ensures r.Some? ==> r.value < memberCount && members[r.value].data == member
    {
      if root == NIL {
        return None;
      }
      ghost var t := tree.value;
      TableBound(t, Members(), memberCount);
      r := FindMember(root, member, t);
      if r.None? {
        forall i | 0 <= i < memberCount ensures Members()[i].data != member {
          assert TableOf(Members())[..memberCount][i] in Entries(t);
        }
        ScoresOnly(Members(), member);
      } else {
        ScoresAt(Members(), r.value);
      }
    }

    /**
    ZADD. A legal member is refused only when it is new and the member table is full; otherwise the
    sorted set changes in exactly that one binding.
    */
    method Add(score: int64, member: Bytes) returns (ok: bool)
      requires Valid()
      modifies this, nodes, members
      ensures Valid()
      ensures ok <==> 0 < |member| < 48 && (member in old(Scores()) || |old(Scores())| < maxMembers)
      ensures Scores() == if ok then old(Scores())[member := score] else old(Scores())
      ensures Members() == if ok then Upsert(old(Members()), Member(member, score)) else old(Members())
      ensures old(InMemberOrder()) && member !in old(Scores()) && score !in old(Scores()).Values ==> InMemberOrder()
    {
      hide ScoresOf, Stores, Sorted, DistinctNames, TableInOrder;
      ghost var ms := Members();
      MemberCountIsSize(ms);
      OrderIsTable();
      if |member| == 0 || |member| >= MAX_MEMBER {
        return false;
      }
      var existing := Lookup(member);
      if existing.Some? {
        UpsertFound(ms, existing.value, Member(member, score));
        UpdateScore(existing.value, score);
        return true;
      }
      if memberCount >= maxMembers {
        return false;
      }
      NoneNamed(ms, member);
      UpsertNew(ms, Member(member, score));
      AddNew(score, member);
      OrderIsTable();
      if TableInOrder(ms) && score !in ScoresOf(ms).Values { NewScoreInOrder(ms, Member(member, score)); }
      return true;
    }

    method AddNew(score: int64, member: Bytes)
      requires Valid() && memberCount < maxMembers && member !in Scores()
      modifies this, nodes, members
      ensures Valid() && Members() == old(Members()) + [Member(member, score)]
      ensures Scores() == old(Scores())[member := score]
    {
      hide Stores, ScoresOf;
      AppendMember(score, member);
      var _ := InsertEntry(Entry(score, memberCount - 1), memberCount - 1);
    }

    /** A score update rewrites one member and indexes everything afresh. */
    method UpdateScore(x: nat, score: int64)
      requires Valid() && x < memberCount
      modifies nodes, members, this`freeNode, this`root, this`tree
      ensures Valid() && Members() == old(Members())[x := Member(old(members[x].data), score)]
      ensures Scores() == old(Scores())[old(members[x].data) := score]
    {
      ghost var before := Members();
      members[x] := members[x].(score := score);
      assert Members() == before[x := Member(before[x].data, score)];
      ScoreUpdated(before, x, score);
      assert DistinctNames(Members());
      Rebuild();
    }

    /** A new member enters the table; the tree does not index it yet. */
    method AppendMember(score: int64, member: Bytes)
      requires Valid() && memberCount < maxMembers && member !in Scores()
      modifies members, this`memberCount
      ensures Pools() && memberCount == old(memberCount) + 1 && Indexes(old(memberCount))
      ensures Members() == old(Members()) + [Member(member, score)]
      ensures DistinctNames(Members())
      ensures ScoresOf(Members()) == old(Scores())[member := score]
    {
      hide Stores, ScoresOf;
      ghost var before := Members();
      NoneNamed(before, member);
      members[memberCount] := Member(member, score);
      memberCount := memberCount + 1;
      assert Members() == before + [Member(member, score)];
      MemberAppended(before, Member(member, score));
      if tree.Some? {
        StoresMore(nodes[..], tree.value, freeNode, before, Member(member, score));
      }
    }

    /** ZSCORE. */
    method Score(member: Bytes) returns (r: Option<int64>)
      requires Valid()
      ensures r == if member in Scores() then Some(Scores()[member]) else None
    {
      var found := Lookup(member);
      if found.None? {
        return None;
      }
      ScoresAt(Members(), found.value);
      return Some(members[found.value].score);
    }

    method CountEntries(c: nat, ghost t: Tree) returns (total: nat)
      requires Pools() && Rep(nodes[..], t) && t.id == c
      ensures total == |Entries(t)|
      decreases Height(t)
    {
      var node := nodes[c];
      if node.isLeaf {
        return node.count;
      }
      ghost var f := t.kids;
      total := 0;
      var i := 0;
      while i <= node.count
        invariant i <= node.count + 1
        invariant total == |EntriesBefore(f, i)|
      {
        RepNth(nodes[..], f, i);
        EntriesBeforeStep(f, i);
        assert node.ptrs[..node.count + 1][i] == KidIds(f)[i];
        var n := CountEntries(node.ptrs[i], Nth(f, i));
        total := total + n;
        i := i + 1;
      }
      EntriesBeforeAll(f);
    }

    /** Visits the leaves below c in order, appending every entry whose position lies in [start, stop]. */
    method CollectInorder(c: nat, idx: nat, start: int, stop: int, reply: array<byte>, replyLen: nat, ghost t: Tree)
      returns (idx': nat, replyLen': nat)
      requires Pools() && Rep(nodes[..], t) && t.id == c && MidxBelow(t, memberCount) && replyLen <= reply.Length
      modifies reply
      ensures idx' == idx + |Entries(t)| && replyLen' <= reply.Length
      ensures reply[..replyLen'] == Replies.CollectFitting(Picked(Entries(t), idx, start, stop, Members()),
                                                           reply.Length, old(reply[..replyLen]))
      decreases Height(t)
    {
      hide Replies.CollectFitting, Picked, Rep, MidxBelow, EntriesBefore, Entries, Nth;
      RootNode(nodes[..], t, memberCount);
      var node := nodes[c];
      if node.isLeaf {
        idx', replyLen' := CollectLeaf(node, idx, start, stop, reply, replyLen, t.entries);
        return;
      }
      ghost var f, ms, before := t.kids, Members(), reply[..replyLen];
      idx', replyLen' := idx, replyLen;
      CollectNone(idx, start, stop, ms, reply.Length, before);
      var i := 0;
      while i <= node.count
        invariant i <= node.count + 1 && replyLen' <= reply.Length
        invariant idx' == idx + |EntriesBefore(f, i)|
        invariant forall e :: e in EntriesBefore(f, i) ==> e.midx < |ms|
        invariant reply[..replyLen'] == Replies.CollectFitting(Picked(EntriesBefore(f, i), idx, start, stop, ms), reply.Length, before)
      {
        ghost var ct := Nth(f, i);
        ChildNode(nodes[..], t, i, memberCount);
        CollectMore(EntriesBefore(f, i), Entries(ct), idx, start, stop, ms, reply.Length, before);
        idx', replyLen' := CollectInorder(node.ptrs[i], idx', start, stop, reply, replyLen', ct);
        i := i + 1;
      }
      EntriesBeforeAll(f);
    }

    method CollectLeaf(node: Node, idx: nat, start: int, stop: int, reply: array<byte>, replyLen: nat,
                       ghost es: seq<Entry>) returns (idx': nat, replyLen': nat)
      requires Pools() && LeafNode(node, es) && (forall e :: e in es ==> e.midx < memberCount) && replyLen <= reply.Length
      modifies reply
      ensures idx' == idx + |es| && replyLen' <= reply.Length
      ensures reply[..replyLen'] == Replies.CollectFitting(Picked(es, idx, start, stop, Members()),
                                                           reply.Length, old(reply[..replyLen]))
    {
      hide Replies.CollectFitting, Picked, Replies.ItemText;
      ghost var ms, before := Members(), reply[..replyLen];
      idx', replyLen' := idx, replyLen;
      CollectNone(idx, start, stop, ms, reply.Length, before);
      assert es[..0] == [];
      var i := 0;
      while i < node.count
        invariant i <= node.count && replyLen' <= reply.Length && idx' == idx + i
        invariant reply[..replyLen'] == Replies.CollectFitting(Picked(es[..i], idx, start, stop, ms), reply.Length, before)
      {
        assert es[i] in es;
        assert es[..i + 1] == es[..i] + [es[i]];
        CollectMore(es[..i], [es[i]], idx, start, stop, ms, reply.Length, before);
        CollectOne(es[i], idx', start, stop, ms, reply.Length, reply[..replyLen']);
        if start <= idx' <= stop {
          var text := Replies.ItemText(members[node.ptrs[i]].data);
          ghost var soFar := reply[..replyLen'];
          var n := Replies.Snprintf(reply, replyLen', text);
          if n > 0 && replyLen' + n < reply.Length {
            assert reply[..replyLen' + n] == soFar + text;
            replyLen' := replyLen' + n;
          }
        }
        idx' := idx' + 1;
        i := i + 1;
      }
      assert es[..i] == es;
    }

    /**
    What holds after every run: the cells in use are exactly those of one unshared tree, all of whose leaves
    are at one depth and whose separators bound the scores; the listing is in score order; it is a
    rearrangement of the member table with the current scores; and fewer than two cells a member are used.
    */
    lemma Laws()
      requires Valid() && tree.Some?
      ensures var t, names := tree.value, Names();
              && Rep(nodes[..], t) && Ids(t) == Range(0, freeNode)
              && Level(t, Height(t)) && Shaped(t) && Ordered(t, INT64_MIN, INT64_MAX, names)
              && (forall i, j :: 0 <= i < j < |Entries(t)| ==> Entries(t)[i].score <= Entries(t)[j].score)
              && multiset(Entries(t)) == multiset(TableOf(Members()))
              && 1 <= freeNode <= 2 * |Scores()| - 1 < maxNodes
    {
      var t := tree.value;
      ListingAscends(t, INT64_MIN, INT64_MAX, Names());
      CellsBounded(t);
      assert |Range(0, freeNode)| == freeNode;
      TableBound(t, Members(), memberCount);
      MemberCountIsSize(Members());
      assert TableOf(Members())[..memberCount] == TableOf(Members());
    }

    /** The member names in listing order. */
    ghost function Ranked(): seq<Bytes>
      requires Valid()
      reads this, nodes, members
    {
      if tree.None? then []
      else
        TableBound(tree.value, Members(), memberCount);
        EntryNames(Entries(tree.value), Members())
    }

    /** The tree, and with it the listing, is decided by the member table. */
    lemma OrderIsTable()
      requires Valid()
      ensures InMemberOrder() <==> TableInOrder(Members())
      ensures tree == if Members() == [] then None else Some(Build(Members()).it)
    {
      hide Grow;
      if tree.Some? { assert TableOf(Members())[..memberCount] == TableOf(Members()); }
    }

    /**
    In every reachable state: the listing is in (score, member) order exactly if, adding the members in table
    order, each one fits where the ones before it put it.
    */
    lemma MemberOrderExactly()
      requires Valid()
      ensures InMemberOrder() <==> AllFit(TableOf(Members()), Names())
    {
      hide TableInOrder, AllFit, Stores;
      OrderIsTable();
      TableInOrderExactly(Members());
    }

    /** Whatever happened before: members with distinct scores are listed in (score, member) order. */
    lemma DistinctScoresInOrder()
      requires Valid() && DistinctScores(Scores())
      ensures InMemberOrder()
    {
      if tree.Some? {
        assert TableOf(Members())[..memberCount] == TableOf(Members());
        DistinctScoresSorted(tree.value, freeNode, Members());
      }
    }

    lemma ForRange()
      requires Valid()
      ensures Pools() && (root == NIL <==> tree.None?)
      ensures tree.None? ==> Ranked() == []
      ensures tree.Some? ==>
                && Rep(nodes[..], tree.value) && tree.value.id == root && MidxBelow(tree.value, memberCount)
                && Ranked() == EntryNames(Entries(tree.value), Members())
    {
      if tree.Some? { TableBound(tree.value, Members(), memberCount); }
    }

    /**
    ZRANGE. Refused only if the header does not fit; otherwise the reply is the header for the clamped
    slice of the ranking followed by the elements of the slice that fit.
    */
    method RangeReply(start: int, stop: int, reply: array<byte>) returns (ok: bool, replyLen: nat)
      requires Valid()
      modifies reply
      ensures Answered(Replies.Slice(old(Ranked()), start, stop), reply[..], ok, replyLen)
    {
      hide Valid, Rep, Answered, EntryNames, Entries, Ranked, MidxBelow;
      ForRange();
      if root == NIL {
        ok, replyLen := EmptyReply(reply);
        return;
      }
      ghost var t := tree.value;
      var total := CountEntries(root, t);
      var lo := if start < 0 then 0 else start;
      var hi := if stop < 0 || stop >= total then total - 1 else stop;
      if lo > hi || total == 0 {
        ok, replyLen := EmptyReply(reply);
        return;
      }
      ok, replyLen := RangeOver(lo, hi, reply, t);
    }

    method RangeOver(lo: nat, hi: nat, reply: array<byte>, ghost t: Tree) returns (ok: bool, replyLen: nat)
      requires Pools() && Rep(nodes[..], t) && t.id == root && MidxBelow(t, memberCount)
      requires lo <= hi < |Entries(t)|
      modifies reply
      ensures Answered(EntryNames(Entries(t), Members())[lo..hi + 1], reply[..], ok, replyLen)
    {
      hide Rep, Replies.CollectFitting, RespSpec.Header, Picked, EntryNames;
      ghost var ds := EntryNames(Entries(t), Members())[lo..hi + 1];
      PickedSlice(Entries(t), lo, hi, Members());
      var n := Replies.Snprintf(reply, 0, RespSpec.Header(RespSpec.STAR, hi - lo + 1));
      if n >= reply.Length {
        return false, 0;
      }
      assert reply[..n] == reply[0..n] == RespSpec.Header(RespSpec.STAR, |ds|);
      Replies.CollectExact(ds, reply.Length, reply[..n]);
      ghost var idx;
      idx, replyLen := CollectInorder(root, 0, lo, hi, reply, n, t);
      assert reply[..][..replyLen] == reply[..replyLen];
      ok := true;
    }

    static method EmptyReply(reply: array<byte>) returns (ok: bool, replyLen: nat)
      modifies reply
      ensures Answered([], reply[..], ok, replyLen)
    {
      hide RespSpec.Header;
      var n := Replies.Snprintf(reply, 0, RespSpec.Header(RespSpec.STAR, 0));
      if n >= reply.Length {
        return false, 0;
      }
      assert reply[..][..n] == reply[0..n];
      return true, n;
    }
  }

  /** ZADD commands, as a run sees them. */
  datatype ZAdd = ZAdd(score: int64, member: Bytes)

  /** The sorted set a run of ZADDs should produce. */
  ghost function Replay(m: map<Bytes, int64>, ops: seq<ZAdd>, max: nat): map<Bytes, int64>
  {
    if ops == [] then m
    else
      var op, m' := ops[|ops| - 1], Replay(m, ops[..|ops| - 1], max);
      if 0 < |op.member| < MAX_MEMBER && (op.member in m' || |m'| < max) then m'[op.member := op.score] else m'
  }

  /** The member table such a run should leave. */
  ghost function ReplayTable(ms: seq<Member>, ops: seq<ZAdd>, max: nat): seq<Member>
  {
    if ops == [] then ms
    else
      var op, ms' := ops[|ops| - 1], ReplayTable(ms, ops[..|ops| - 1], max);
      if 0 < |op.member| < MAX_MEMBER && (op.member in ScoresOf(ms') || |ScoresOf(ms')| < max)
      then Upsert(ms', Member(op.member, op.score)) else ms'
  }

  /** Every run of ZADDs leaves the map that the same run leaves on a plain map. */
  method RunAdds(s: SortedSet, ops: seq<ZAdd>)
    requires s.Valid()
    modifies s, s.nodes, s.members
    ensures s.Valid() && s.Scores() == Replay(old(s.Scores()), ops, s.maxMembers)
    ensures s.Members() == ReplayTable(old(s.Members()), ops, s.maxMembers)
    ensures s.InMemberOrder() <==> AllFit(TableOf(s.Members()), NamesOf(s.Members()))
    ensures DistinctScores(s.Scores()) ==> s.InMemberOrder()
  {
    hide Stores, ScoresOf, Upsert, AllFit;
    ghost var m, ms := s.Scores(), s.Members();
    for i := 0 to |ops|
      invariant s.Valid() && s.Scores() == Replay(m, ops[..i], s.maxMembers)
      invariant s.Members() == ReplayTable(ms, ops[..i], s.maxMembers)
    {
      assert ops[..i + 1][..i] == ops[..i];
      var _ := s.Add(ops[i].score, ops[i].member);
    }
    assert ops[..|ops|] == ops;
    s.MemberOrderExactly();
    if DistinctScores(s.Scores()) { s.DistinctScoresInOrder(); }
  }

  lemma GrowTable(es: seq<Entry>, i: nat, names: seq<Bytes>)
    requires i < |es|
    ensures Grow(es[..i + 1], names) ==
            if i == 0 then Grown(Leaf(0, [es[0]]), 1)
            else InsertRoot(Grow(es[..i], names).it, es[i], Grow(es[..i], names).free, names)
  {
    if i == 0 {
      assert es[..1] == [es[0]];
    } else {
      assert es[..i + 1] == es[..i] + [es[i]];
      GrowStep(es[..i], es[i], names);
    }
  }

  /** What a walk finds at the root of a tree. */
  lemma RootNode(a: seq<Node>, t: Tree, m: nat)
    requires Rep(a, t) && MidxBelow(t, m)
    ensures t.id < |a| && a[t.id].isLeaf == t.Leaf?
    ensures t.Leaf? ==> LeafNode(a[t.id], t.entries) && Entries(t) == t.entries && forall e :: e in t.entries ==> e.midx < m
    ensures t.Inner? ==> a[t.id].count + 1 == Len(t.kids) <= MAX_KEYS + 1
    ensures t.Inner? ==> EntriesBefore(t.kids, 0) == [] && Entries(t) == EntriesF(t.kids)
  {
  }

  /** What a walk needs to go on in the i-th child. */
  lemma ChildNode(a: seq<Node>, t: Tree, i: nat, m: nat)
    requires Rep(a, t) && t.Inner? && i < Len(t.kids) && MidxBelow(t, m)
    ensures var c := Nth(t.kids, i);
            && a[t.id].ptrs[i] == c.id && Rep(a, c) && MidxBelow(c, m) && Height(c) < Height(t)
            && EntriesBefore(t.kids, i + 1) == EntriesBefore(t.kids, i) + Entries(c)
            && forall e :: e in EntriesBefore(t.kids, i) || e in Entries(c) ==> e.midx < m
  {
    hide RepF;
    RepNth(a, t.kids, i);
    EntriesBeforeStep(t.kids, i);
    GraftEntries(t.kids, i, Last(Nth(t.kids, i)));
    assert a[t.id].ptrs[..a[t.id].count + 1][i] == KidIds(t.kids)[i];
  }

  lemma LeafCount(n: Node, es: seq<Entry>)
    requires LeafNode(n, es)
    ensures n.isLeaf && n.count == |es| <= MAX_KEYS
  {
  }

  /** A leaf whose slots from pos on were moved up by one to make room for e. */
  lemma LeafShifted(n: Node, r: Node, es: seq<Entry>, pos: nat, e: Entry)
    requires LeafNode(n, es) && pos <= n.count < MAX_KEYS && r.isLeaf && r.count == n.count + 1
    requires forall k :: 0 <= k < pos ==> r.keys[k] == n.keys[k] && r.ptrs[k] == n.ptrs[k]
    requires r.keys[pos] == e.score && r.ptrs[pos] == e.midx
    requires forall k :: pos < k <= n.count ==> r.keys[k] == n.keys[k - 1] && r.ptrs[k] == n.ptrs[k - 1]
    ensures LeafNode(r, InsertAt(es, pos, e))
  {
  }

  /** What a tree over the first n members needs to take the next one, and that there is room for it. */
  lemma StoresNext(a: seq<Node>, t: Tree, free: nat, ms: seq<Member>, n: nat, e: Entry)
    requires 0 < n < |ms| && Stores(a, t, free, ms, n) && e == TableOf(ms)[n]
    ensures Rep(a, t) && Shaped(t) && t.id < free && Once(Ids(t), free) && MidxBelow(t, |ms|)
    ensures InsertRoot(t, e, free, NamesOf(ms)).free <= 2 * (n + 1) - 1
  {
    hide Grow, InsertRoot;
    RoomForOneMore(t, e, free, ms, n);
  }

  /** The tree with the next member in it is the tree over one member more. */
  lemma StoresThen(a: seq<Node>, b: seq<Node>, t: Tree, free: nat, ms: seq<Member>, n: nat, e: Entry)
    requires 0 < n < |ms| && Stores(a, t, free, ms, n) && e == TableOf(ms)[n]
    requires Rep(b, InsertRoot(t, e, free, NamesOf(ms)).it)
    ensures var r := InsertRoot(t, e, free, NamesOf(ms)); Stores(b, r.it, r.free, ms, n + 1)
  {
    hide Grow, InsertRoot, Rep;
    RoomForOneMore(t, e, free, ms, n);
    GrowTable(TableOf(ms), n, NamesOf(ms));
  }

  /** A tree over all members is still a tree over them when the table grows. */
  lemma StoresMore(a: seq<Node>, t: Tree, free: nat, ms: seq<Member>, m: Member)
    requires ms != [] && Stores(a, t, free, ms, |ms|)
    ensures Stores(a, t, free, ms + [m], |ms|)
  {
    hide Rep, Good, Grow;
    NamesGrow(t, free, ms, m);
  }

  lemma NoneNamed(ms: seq<Member>, name: Bytes)
    requires DistinctNames(ms) && name !in ScoresOf(ms)
    ensures forall i :: 0 <= i < |ms| ==> ms[i].data != name
  {
    forall i | 0 <= i < |ms| ensures ms[i].data != name { ScoresAt(ms, i); }
  }

  /** The reply for the elements ds: refused only if its header does not fit. */
  ghost predicate Answered(ds: seq<Bytes>, reply: Bytes, ok: bool, len: nat)
  {
    && (ok <==> |RespSpec.Header(RespSpec.STAR, |ds|)| < |reply|)
    && (ok ==> len < |reply| && reply[..len] == Replies.CollectedReply(ds, |reply|))
  }

  /**
  What a client makes of a ZRANGE reply without NUL bytes: exactly the selected elements if all of them fit,
  and otherwise an array that waits for more.
  */
  lemma AnswerDecodes(ds: seq<Bytes>, reply: Bytes, len: nat)
    requires Answered(ds, reply, true, len) && Replies.NulFree(ds)
    requires |ds| <= INT64_MAX && forall d :: d in ds ==> |d| <= INT64_MAX
    ensures RespSpec.Parse(reply[..len]) ==
            if |Replies.ArrayReply(ds)| < |reply| then RespSpec.Done(RespSpec.Array(RespSpec.Bulks(ds)), len)
            else RespSpec.NeedMore
  {
    hide RespSpec.Parse, RespSpec.Header, Replies.CollectFitting, Replies.ArrayReply;
    Replies.CollectedReplyExact(ds, |reply|);
    Replies.CollectedReplyDecodes(ds, |reply|);
  }
}
