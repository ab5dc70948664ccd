/**
 Index maintenance: separator repair up the tree, the circular leaf list, and the leaf scan.
 */
module Index {
  import opened Defs

  const IX_NO_PAGE := -1
  const IX_LEAF_HEADER_PAGE := 1
  const IX_INIT_ROOT_PAGE := 2

  type Key = seq<int>

  /** A node's page: `rids` gives the children's page numbers in an inner node, and the records in a leaf. */
  datatype IxNode = IxNode(isLeaf: bool, parent: int, keys: seq<Key>, rids: seq<Rid>, prevLeaf: int, nextLeaf: int)

  datatype Iid = Iid(pageNo: int, slotNo: int)

  type Nodes = map<int, IxNode>

  // ----- The tree -----

  predicate ChildAt(nodes: Nodes, p: int, i: int, c: int)
    requires p in nodes
  {
    0 <= i < |nodes[p].rids| && nodes[p].rids[i].pageNo == c
  }

  /**
   Nodes point to their parents, parents list each child once, every node with a parent has a first key,
   and going up reaches the root (`depth` shrinks).
   */
  ghost predicate TreeOk(nodes: Nodes, depth: map<int, nat>) {
    && (forall c | c in nodes && nodes[c].parent != IX_NO_PAGE ::
          && nodes[c].parent in nodes && !nodes[nodes[c].parent].isLeaf && |nodes[c].keys| >= 1
          && (exists i :: ChildAt(nodes, nodes[c].parent, i, c))
          && c in depth && nodes[c].parent in depth && depth[nodes[c].parent] < depth[c])
    && (forall p | p in nodes :: |nodes[p].rids| == |nodes[p].keys|)
    && (forall p, i, j | p in nodes && !nodes[p].isLeaf && 0 <= i < j < |nodes[p].rids| ::
          nodes[p].rids[i].pageNo != nodes[p].rids[j].pageNo)
  }

  /** The child at entry `i` knows `node` as its parent. */
  predicate PointsBack(nodes: Nodes, node: int, i: int)
    requires node in nodes && 0 <= i < |nodes[node].rids|
  {
    var c := nodes[node].rids[i].pageNo;
    c in nodes && nodes[c].parent == node
  }

  /** The parent's entry for `c` is the first key of `c`. */
  ghost predicate SeparatorOk(nodes: Nodes, c: int)
    requires c in nodes
  {
    nodes[c].parent != IX_NO_PAGE ==>
      && nodes[c].parent in nodes && |nodes[c].keys| >= 1
      && forall i | ChildAt(nodes, nodes[c].parent, i, c) && i < |nodes[nodes[c].parent].keys| ::
           nodes[nodes[c].parent].keys[i] == nodes[c].keys[0]
  }

  ghost predicate SeparatorsOk(nodes: Nodes, except: int) {
    forall c | c in nodes && c != except :: SeparatorOk(nodes, c)
  }

  /** The same tree with the same leaf contents; only keys of inner nodes may differ. */
  ghost predicate SameShape(a: Nodes, b: Nodes) {
    && a.Keys == b.Keys
    && forall p | p in a :: b[p].(keys := []) == a[p].(keys := []) && |b[p].keys| == |a[p].keys| && (a[p].isLeaf ==> b[p] == a[p])
  }

  /** Every key that differs is the parent's entry for one of its children. */
  ghost predicate OnlySeparators(a: Nodes, b: Nodes)
    requires SameShape(a, b)
  {
    forall p, i | p in a && 0 <= i < |a[p].keys| && b[p].keys[i] != a[p].keys[i] ::
      i < |a[p].rids| && a[p].rids[i].pageNo in a && a[a[p].rids[i].pageNo].parent == p
  }

  lemma RepairKeepsTree(nodes: Nodes, depth: map<int, nat>, c: int, i: int, key: Key)
    requires TreeOk(nodes, depth) && c in nodes && nodes[c].parent != IX_NO_PAGE && ChildAt(nodes, nodes[c].parent, i, c)
    ensures var p := nodes[c].parent;
            var nodes' := nodes[p := nodes[p].(keys := nodes[p].keys[i := key])];
            TreeOk(nodes', depth) && SameShape(nodes, nodes')
  {
    var p := nodes[c].parent;
    var nodes' := nodes[p := nodes[p].(keys := nodes[p].keys[i := key])];
    forall d | d in nodes' && nodes'[d].parent != IX_NO_PAGE ensures exists j :: ChildAt(nodes', nodes'[d].parent, j, d) {
      var j :| ChildAt(nodes, nodes[d].parent, j, d);
      assert ChildAt(nodes', nodes'[d].parent, j, d);
    }
  }

  lemma RepairIsSeparator(was: Nodes, nodes: Nodes, c: int, i: int, key: Key)
    requires SameShape(was, nodes) && OnlySeparators(was, nodes)
    requires c in nodes && nodes[c].parent in nodes && ChildAt(nodes, nodes[c].parent, i, c)
    requires i < |nodes[nodes[c].parent].keys| && !nodes[nodes[c].parent].isLeaf
    ensures var p := nodes[c].parent;
            var nodes' := nodes[p := nodes[p].(keys := nodes[p].keys[i := key])];
            SameShape(was, nodes') && OnlySeparators(was, nodes')
  {
  }

  /** Repairing the entry of `c` leaves at most the parent's own entry wrong. */
  lemma RepairMovesUp(nodes: Nodes, depth: map<int, nat>, c: int, i: int)
    requires TreeOk(nodes, depth) && c in nodes && nodes[c].parent != IX_NO_PAGE && ChildAt(nodes, nodes[c].parent, i, c)
    requires SeparatorsOk(nodes, c)
    ensures var p := nodes[c].parent;
            SeparatorsOk(nodes[p := nodes[p].(keys := nodes[p].keys[i := nodes[c].keys[0]])], p)
  {
    var p := nodes[c].parent;
    var nodes' := nodes[p := nodes[p].(keys := nodes[p].keys[i := nodes[c].keys[0]])];
    forall d | d in nodes' && d != p ensures SeparatorOk(nodes', d) {
      if nodes[d].parent == p {
        forall j | ChildAt(nodes', p, j, d) ensures nodes'[p].keys[j] == nodes'[d].keys[0] {
          assert ChildAt(nodes, p, j, d);
          if d == c {
            if j < i { assert false; } else if i < j { assert false; }
          } else {
            assert j != i && SeparatorOk(nodes, d);
          }
        }
      } else if nodes[d].parent != IX_NO_PAGE {
        assert d != c && SeparatorOk(nodes, d);
        assert forall j :: ChildAt(nodes', nodes[d].parent, j, d) <==> ChildAt(nodes, nodes[d].parent, j, d);
      }
    }
  }

  lemma RankUnique(nodes: Nodes, depth: map<int, nat>, c: int, i: int)
    requires TreeOk(nodes, depth) && c in nodes && nodes[c].parent != IX_NO_PAGE && ChildAt(nodes, nodes[c].parent, i, c)
    requires nodes[nodes[c].parent].keys[i] == nodes[c].keys[0]
    ensures SeparatorOk(nodes, c)
  {
    forall j | ChildAt(nodes, nodes[c].parent, j, c) ensures j == i {
      if j < i || i < j { assert false; }
    }
  }

  // ----- The leaf list -----

  function After(i: int, n: int): int {
    if i + 1 == n then 0 else i + 1
  }

  function Prior(i: int, n: int): int {
    if i == 0 then n - 1 else i - 1
  }

  /** Page `list[i]` is a leaf linked to its two neighbours in the circle `list`. */
  ghost predicate LinkedAt(nodes: Nodes, list: seq<int>, i: int)
    requires 0 <= i < |list|
  {
    && list[i] in nodes && nodes[list[i]].isLeaf
    && nodes[list[i]].nextLeaf == list[After(i, |list|)]
    && nodes[list[i]].prevLeaf == list[Prior(i, |list|)]
  }

  /** `list` is the circular doubly linked list of leaves, starting at the header page. */
  ghost predicate Ring(nodes: Nodes, list: seq<int>) {
    && |list| >= 1 && list[0] == IX_LEAF_HEADER_PAGE && NoDuplicates(list)
    && forall i | 0 <= i < |list| :: LinkedAt(nodes, list, i)
  }

  function Erased(list: seq<int>, k: int): seq<int>
    requires 0 <= k < |list|
  {
    list[..k] + list[k + 1..]
  }

  /** The file header names the first and last leaves of the list. */
  predicate EndsOk(list: seq<int>, firstLeaf: int, lastLeaf: int) {
    |list| >= 2 && list[1] == firstLeaf && list[|list| - 1] == lastLeaf
  }

  /** The header still names the two ends of the shortened list exactly when an inner leaf was taken out. */
  lemma ErasedEnds(list: seq<int>, k: int, firstLeaf: int, lastLeaf: int)
    requires 0 < k < |list| && NoDuplicates(list) && EndsOk(list, firstLeaf, lastLeaf)
    ensures EndsOk(Erased(list, k), firstLeaf, lastLeaf) <==> 1 < k < |list| - 1
  {
    var rest := Erased(list, k);
    if k == 1 && |list| > 2 {
      assert rest[1] == list[2] != list[1];
    } else if 1 < k == |list| - 1 {
      assert rest[|rest| - 1] == list[k - 1] != list[k];
    } else if k > 1 {
      assert rest[1] == list[1] && rest[|rest| - 1] == list[|list| - 1];
    }
  }

  function Unlink(nodes: Nodes, leaf: int): Nodes
    requires leaf in nodes && nodes[leaf].prevLeaf in nodes && nodes[leaf].nextLeaf in nodes
  {
    var p, n := nodes[leaf].prevLeaf, nodes[leaf].nextLeaf;
    var linked := nodes[p := nodes[p].(nextLeaf := n)];
    linked[n := linked[n].(prevLeaf := p)]
  }

  lemma UnlinkAt(nodes: Nodes, list: seq<int>, k: int, j: int)
    requires 0 < k < |list| && 0 <= j < |list| && j != k
    requires NoDuplicates(list) && LinkedAt(nodes, list, k) && LinkedAt(nodes, list, j)
    requires list[After(k, |list|)] in nodes && list[Prior(k, |list|)] in nodes
    ensures LinkedAt(Unlink(nodes, list[k]), Erased(list, k), if j < k then j else j - 1)
  {
    var a, b := Prior(k, |list|), After(k, |list|);
    assert j == a <==> list[j] == list[a];
    assert j == b <==> list[j] == list[b];
    var rest, i := Erased(list, k), if j < k then j else j - 1;
    assert rest[i] == list[j];
    assert rest[After(i, |rest|)] == if j == a then list[b] else list[After(j, |list|)];
    assert rest[Prior(i, |rest|)] == if j == b then list[a] else list[Prior(j, |list|)];
  }

  lemma UnlinkKeepsRing(nodes: Nodes, list: seq<int>, k: int)
    requires Ring(nodes, list) && 0 < k < |list|
    ensures list[Prior(k, |list|)] in nodes && list[After(k, |list|)] in nodes && LinkedAt(nodes, list, k)
    ensures Ring(Unlink(nodes, list[k]), Erased(list, k))
  {
    assert LinkedAt(nodes, list, Prior(k, |list|)) && LinkedAt(nodes, list, After(k, |list|)) && LinkedAt(nodes, list, k);
    var rest := Erased(list, k);
    ErasedDistinct(list, k);
    forall i | 0 <= i < |rest| ensures LinkedAt(Unlink(nodes, list[k]), rest, i) {
      UnlinkAt(nodes, list, k, if i < k then i else i + 1);
    }
  }

  lemma ErasedDistinct(list: seq<int>, k: int)
    requires NoDuplicates(list) && 0 <= k < |list|
    ensures NoDuplicates(Erased(list, k)) && forall p :: p in Erased(list, k) <==> p in list && p != list[k]
  {
    forall p | p in list && p != list[k] ensures p in Erased(list, k) {
      var i :| 0 <= i < |list| && list[i] == p;
      assert Erased(list, k)[if i < k then i else i - 1] == p;
    }
  }

  /** The pages create_index writes: the list header and an empty root leaf, each the other's neighbour. */
  function Created(): Nodes {
    map[IX_LEAF_HEADER_PAGE := IxNode(true, IX_NO_PAGE, [], [], IX_INIT_ROOT_PAGE, IX_INIT_ROOT_PAGE),
        IX_INIT_ROOT_PAGE := IxNode(true, IX_NO_PAGE, [], [], IX_LEAF_HEADER_PAGE, IX_LEAF_HEADER_PAGE)]
  }

  lemma CreatedOk()
    ensures TreeOk(Created(), map[]) && forall c | c in Created() :: SeparatorOk(Created(), c)
    ensures Ring(Created(), [IX_LEAF_HEADER_PAGE, IX_INIT_ROOT_PAGE])
    ensures EndsOk([IX_LEAF_HEADER_PAGE, IX_INIT_ROOT_PAGE], IX_INIT_ROOT_PAGE, IX_INIT_ROOT_PAGE)
  {
    var list := [IX_LEAF_HEADER_PAGE, IX_INIT_ROOT_PAGE];
    assert LinkedAt(Created(), list, 0) && LinkedAt(Created(), list, 1);
  }

  // ----- The scan -----

  /** `leaves` are the leaves from the header's first to its last, linked in that order. */
  ghost predicate LeafChain(nodes: Nodes, leaves: seq<int>, firstLeaf: int, lastLeaf: int) {
    && |leaves| >= 1 && NoDuplicates(leaves) && leaves[0] == firstLeaf && leaves[|leaves| - 1] == lastLeaf
    && (forall i | 0 <= i < |leaves| :: leaves[i] in nodes && nodes[leaves[i]].isLeaf)
    && (forall i | 0 <= i < |leaves| - 1 :: nodes[leaves[i]].nextLeaf == leaves[i + 1])
  }

  lemma RingChain(nodes: Nodes, list: seq<int>, firstLeaf: int, lastLeaf: int)
    requires Ring(nodes, list) && EndsOk(list, firstLeaf, lastLeaf)
    ensures LeafChain(nodes, list[1..], firstLeaf, lastLeaf)
  {
    var leaves := list[1..];
    forall i | 0 <= i < |leaves|
      ensures leaves[i] in nodes && nodes[leaves[i]].isLeaf
      ensures i < |leaves| - 1 ==> nodes[leaves[i]].nextLeaf == leaves[i + 1]
    {
      assert LinkedAt(nodes, list, i + 1);
    }
  }

  function LeafEntries(leaf: int, n: nat): seq<Iid> {
    seq(n, i => Iid(leaf, i))
  }

  /** Every position of every leaf, leaf by leaf. */
  function Entries(nodes: Nodes, leaves: seq<int>): seq<Iid> {
    if leaves == [] then []
    else
      var leaf := leaves[|leaves| - 1];
      Entries(nodes, leaves[..|leaves| - 1]) + (if leaf in nodes then LeafEntries(leaf, |nodes[leaf].keys|) else [])
  }

  lemma EntriesGrow(nodes: Nodes, leaves: seq<int>, j: int)
    requires 0 <= j < |leaves| && leaves[j] in nodes
    ensures Entries(nodes, leaves[..j + 1]) == Entries(nodes, leaves[..j]) + LeafEntries(leaves[j], |nodes[leaves[j]].keys|)
  {
    assert leaves[..j + 1][..j] == leaves[..j];
  }

  /** Each position of each leaf is listed, and listed once. */
  lemma {:induction false} EntriesOnce(nodes: Nodes, leaves: seq<int>)
    requires NoDuplicates(leaves) && forall i | 0 <= i < |leaves| :: leaves[i] in nodes
    ensures NoDuplicates(Entries(nodes, leaves))
    ensures forall e :: e in Entries(nodes, leaves) <==>
                        e.pageNo in leaves && 0 <= e.slotNo < |nodes[e.pageNo].keys|
  {
    if leaves != [] {
      var n := |leaves| - 1;
      var init, last := leaves[..n], LeafEntries(leaves[n], |nodes[leaves[n]].keys|);
      EntriesOnce(nodes, init);
      assert leaves == init + [leaves[n]] && leaves[n] !in init;
      assert forall e :: e in last <==> e.pageNo == leaves[n] && 0 <= e.slotNo < |last| by {
        forall e: Iid | e.pageNo == leaves[n] && 0 <= e.slotNo < |last| ensures e in last {
          assert last[e.slotNo] == e;
        }
      }
    }
  }

  /** The position names an entry of a leaf: what next() asserts. */
  predicate IsEntry(nodes: Nodes, iid: Iid) {
    iid.pageNo in nodes && nodes[iid.pageNo].isLeaf && iid.slotNo < |nodes[iid.pageNo].keys|
  }

  function NextIid(nodes: Nodes, lastLeaf: int, iid: Iid): Iid
    requires iid.pageNo in nodes
  {
    if iid.pageNo != lastLeaf && iid.slotNo + 1 == |nodes[iid.pageNo].keys| then Iid(nodes[iid.pageNo].nextLeaf, 0)
    else Iid(iid.pageNo, iid.slotNo + 1)
  }

  /** Every leaf the scan must step out of has an entry. */
  ghost predicate NoEmptyLeaf(nodes: Nodes, leaves: seq<int>) {
    forall i | 0 <= i < |leaves| - 1 && leaves[i] in nodes :: |nodes[leaves[i]].keys| > 0
  }

  /** A scan in leaf `j` has visited everything before its position, and every leaf it left had an entry. */
  ghost predicate Scanned(nodes: Nodes, leaves: seq<int>, j: int, iid: Iid, visited: seq<Iid>) {
    && 0 <= j < |leaves| && iid.pageNo == leaves[j] && leaves[j] in nodes
    && 0 <= iid.slotNo <= |nodes[leaves[j]].keys|
    && (iid.slotNo == |nodes[leaves[j]].keys| ==> j == |leaves| - 1 || iid.slotNo == 0)
    && NoEmptyLeaf(nodes, leaves[..j + 1])
    && visited == Entries(nodes, leaves[..j]) + LeafEntries(leaves[j], iid.slotNo)
  }

  lemma ScanStep(nodes: Nodes, leaves: seq<int>, first: int, last: int, j: int, iid: Iid, visited: seq<Iid>)
    requires LeafChain(nodes, leaves, first, last) && Scanned(nodes, leaves, j, iid, visited) && IsEntry(nodes, iid)
    ensures var next := NextIid(nodes, last, iid);
            if next.pageNo == iid.pageNo && next.slotNo != 0
            then Scanned(nodes, leaves, j, next, visited + [iid])
            else j < |leaves| - 1 && Scanned(nodes, leaves, j + 1, next, visited + [iid])
  {
    assert j == |leaves| - 1 <==> leaves[j] == last;
    EntriesGrow(nodes, leaves, j);
    assert LeafEntries(leaves[j], iid.slotNo + 1) == LeafEntries(leaves[j], iid.slotNo) + [iid];
  }

  lemma ScanStops(nodes: Nodes, leaves: seq<int>, first: int, last: int, j: int, iid: Iid, visited: seq<Iid>)
    requires LeafChain(nodes, leaves, first, last) && Scanned(nodes, leaves, j, iid, visited)
    requires iid == Iid(last, |nodes[last].keys|) || !IsEntry(nodes, iid)
    ensures iid == Iid(last, |nodes[last].keys|) <==> NoEmptyLeaf(nodes, leaves)
    ensures iid == Iid(last, |nodes[last].keys|) ==> visited == Entries(nodes, leaves)
  {
    assert j == |leaves| - 1 <==> leaves[j] == last;
    EntriesGrow(nodes, leaves, j);
    if j == |leaves| - 1 {
      assert leaves[..j + 1] == leaves;
    }
  }

  // ----- Inputs on which the header ends or the scan fail -----

  /** A list of two leaves, the first of which is empty. */
  function FirstLeafEmpty(): Nodes {
    map[IX_LEAF_HEADER_PAGE := IxNode(true, IX_NO_PAGE, [], [], 3, 2),
        2 := IxNode(true, IX_NO_PAGE, [], [], IX_LEAF_HEADER_PAGE, 3),
        3 := IxNode(true, IX_NO_PAGE, [[0]], [Rid(1, 0)], 2, IX_LEAF_HEADER_PAGE)]
  }

  lemma TwoLeafRing()
    ensures Ring(FirstLeafEmpty(), [IX_LEAF_HEADER_PAGE, 2, 3]) && EndsOk([IX_LEAF_HEADER_PAGE, 2, 3], 2, 3)
  {
    var nodes, list := FirstLeafEmpty(), [IX_LEAF_HEADER_PAGE, 2, 3];
    assert LinkedAt(nodes, list, 0) && LinkedAt(nodes, list, 1) && LinkedAt(nodes, list, 2);
  }

  /** Erasing the first of the two leaves keeps the list, but the header goes on naming a leaf that is off it. */
  lemma EndErased()
    ensures Ring(FirstLeafEmpty(), [IX_LEAF_HEADER_PAGE, 2, 3]) && EndsOk([IX_LEAF_HEADER_PAGE, 2, 3], 2, 3)
    ensures Ring(Unlink(FirstLeafEmpty(), 2), [IX_LEAF_HEADER_PAGE, 3]) && !EndsOk([IX_LEAF_HEADER_PAGE, 3], 2, 3)
  {
    TwoLeafRing();
    var list := [IX_LEAF_HEADER_PAGE, 2, 3];
    assert Erased(list, 1) == [IX_LEAF_HEADER_PAGE, 3];
    hide Ring, LinkedAt, Unlink;
    UnlinkKeepsRing(FirstLeafEmpty(), list, 1);
  }

  /** A scan of the two leaves cannot get past the first, although the second has an entry. */
  lemma EmptyLeafStops()
    ensures Ring(FirstLeafEmpty(), [IX_LEAF_HEADER_PAGE, 2, 3]) && LeafChain(FirstLeafEmpty(), [2, 3], 2, 3)
    ensures !NoEmptyLeaf(FirstLeafEmpty(), [2, 3]) && !IsEntry(FirstLeafEmpty(), Iid(2, 0))
    ensures Iid(3, 0) in Entries(FirstLeafEmpty(), [2, 3])
  {
    TwoLeafRing();
    var nodes, leaves := FirstLeafEmpty(), [2, 3];
    RingChain(nodes, [IX_LEAF_HEADER_PAGE, 2, 3], 2, 3);
    assert [IX_LEAF_HEADER_PAGE, 2, 3][1..] == leaves;
    assert leaves[0] == 2 && |nodes[leaves[0]].keys| == 0;
    hide Ring, LinkedAt;
    EntriesOnce(nodes, leaves);
  }

  class IxIndexHandle {
    var nodes: Nodes
    var firstLeaf: int
    var lastLeaf: int

    constructor (nodes: Nodes, firstLeaf: int, lastLeaf: int)
      ensures this.nodes == nodes && this.firstLeaf == firstLeaf && this.lastLeaf == lastLeaf
    {
      this.nodes, this.firstLeaf, this.lastLeaf := nodes, firstLeaf, lastLeaf;
    }

    /** find_child. */
    method FindChild(p: int, c: int) returns (i: int)
      requires p in nodes && exists k :: ChildAt(nodes, p, k, c)
      ensures ChildAt(nodes, p, i, c)
    {
      i := 0;
      while i < |nodes[p].rids| && nodes[p].rids[i].pageNo != c
        invariant 0 <= i <= |nodes[p].rids| && forall k | 0 <= k < i :: nodes[p].rids[k].pageNo != c
      {
        i := i + 1;
      }
    }

    /** maintain_parent: copy first keys upward until a parent entry is right already. */
    method MaintainParent(node: int, ghost depth: map<int, nat>)
      requires TreeOk(nodes, depth) && node in nodes && SeparatorsOk(nodes, node)
      modifies this`nodes
      ensures TreeOk(nodes, depth) && SameShape(old(nodes), nodes) && OnlySeparators(old(nodes), nodes)
      ensures forall c | c in nodes :: SeparatorOk(nodes, c)
    {
      var curr := node;
      while nodes[curr].parent != IX_NO_PAGE
        invariant TreeOk(nodes, depth) && curr in nodes && SeparatorsOk(nodes, curr)
        invariant SameShape(old(nodes), nodes) && OnlySeparators(old(nodes), nodes)
        decreases if curr in depth then depth[curr] + 1 else 0
      {
        var p := nodes[curr].parent;
        var rank := FindChild(p, curr);
        if nodes[p].keys[rank] == nodes[curr].keys[0] {
          RankUnique(nodes, depth, curr, rank);
          break;
        }
        RepairKeepsTree(nodes, depth, curr, rank, nodes[curr].keys[0]);
        RepairIsSeparator(old(nodes), nodes, curr, rank, nodes[curr].keys[0]);
        RepairMovesUp(nodes, depth, curr, rank);
        nodes := nodes[p := nodes[p].(keys := nodes[p].keys[rank := nodes[curr].keys[0]])];
        curr := p;
      }
    }

    /** maintain_child: a child of an inner node is told its parent. */
    method MaintainChild(node: int, childIdx: int)
      requires node in nodes
      requires !nodes[node].isLeaf ==> 0 <= childIdx < |nodes[node].rids| && nodes[node].rids[childIdx].pageNo in nodes
      modifies this`nodes
      ensures old(nodes)[node].isLeaf ==> nodes == old(nodes)
      ensures !old(nodes)[node].isLeaf ==>
        var c := old(nodes)[node].rids[childIdx].pageNo;
        nodes == old(nodes)[c := old(nodes)[c].(parent := node)]
      ensures !nodes[node].isLeaf && (forall i | 0 <= i < |nodes[node].rids| && i != childIdx :: PointsBack(old(nodes), node, i)) ==>
                forall i | 0 <= i < |nodes[node].rids| :: PointsBack(nodes, node, i)
    {
      if !nodes[node].isLeaf {
        ghost var was := nodes;
        var c := nodes[node].rids[childIdx].pageNo;
        nodes := nodes[c := nodes[c].(parent := node)];
        assert forall i | 0 <= i < |nodes[node].rids| && (i == childIdx || PointsBack(was, node, i)) :: PointsBack(nodes, node, i);
      }
    }

    /** erase_leaf: the neighbours of `leaf` are linked to each other. */
    method EraseLeaf(leaf: int, ghost list: seq<int>, ghost k: int)
      requires Ring(nodes, list) && 0 < k < |list| && list[k] == leaf
      modifies this`nodes
      ensures Ring(nodes, Erased(list, k))
      ensures nodes.Keys == old(nodes).Keys
      ensures forall p | p in nodes :: nodes[p] == old(nodes)[p].(prevLeaf := nodes[p].prevLeaf, nextLeaf := nodes[p].nextLeaf)
      ensures forall p | p in nodes && (p !in list || p == leaf) :: nodes[p] == old(nodes)[p]
    {
      UnlinkKeepsRing(nodes, list, k);
      assert nodes[leaf].prevLeaf != leaf && nodes[leaf].nextLeaf != leaf;
      hide Ring, LinkedAt, NoDuplicates;
      var prev := nodes[leaf].prevLeaf;
      nodes := nodes[prev := nodes[prev].(nextLeaf := nodes[leaf].nextLeaf)];
      var next := nodes[leaf].nextLeaf;
      nodes := nodes[next := nodes[next].(prevLeaf := nodes[leaf].prevLeaf)];
    }

    /** leaf_begin: where a scan stands that has visited nothing. */
    method LeafBegin() returns (iid: Iid)
      ensures iid == Iid(firstLeaf, 0)
      ensures forall leaves | LeafChain(nodes, leaves, firstLeaf, lastLeaf) :: Scanned(nodes, leaves, 0, iid, [])
    {
      iid := Iid(firstLeaf, 0);
      forall leaves | LeafChain(nodes, leaves, firstLeaf, lastLeaf) ensures Scanned(nodes, leaves, 0, iid, []) {
        assert leaves[..0] == [];
      }
    }

    /** leaf_end: where a scan stands that has visited every entry of every leaf. */
    method LeafEnd() returns (iid: Iid)
      requires lastLeaf in nodes
      ensures iid == Iid(lastLeaf, |nodes[lastLeaf].keys|)
      ensures forall leaves | LeafChain(nodes, leaves, firstLeaf, lastLeaf) && NoEmptyLeaf(nodes, leaves) ::
                Scanned(nodes, leaves, |leaves| - 1, iid, Entries(nodes, leaves))
    {
      iid := Iid(lastLeaf, |nodes[lastLeaf].keys|);
      forall leaves | LeafChain(nodes, leaves, firstLeaf, lastLeaf) && NoEmptyLeaf(nodes, leaves)
        ensures Scanned(nodes, leaves, |leaves| - 1, iid, Entries(nodes, leaves))
      {
        EntriesGrow(nodes, leaves, |leaves| - 1);
        assert leaves[..|leaves| - 1 + 1] == leaves;
      }
    }
  }

  class IxScan {
    const ih: IxIndexHandle
    var iid: Iid
    const end: Iid

    constructor (ih: IxIndexHandle, lower: Iid, upper: Iid)
      ensures this.ih == ih && iid == lower && end == upper
    {
      this.ih, iid, end := ih, lower, upper;
    }

    predicate IsEnd()
      reads this
    {
      iid == end
    }

    predicate OnEntry()
      reads this, ih
    {
      IsEntry(ih.nodes, iid)
    }

    method Next()
      requires !IsEnd() && OnEntry()
      modifies this
      ensures iid == NextIid(ih.nodes, ih.lastLeaf, old(iid))
    {
      var node := ih.nodes[iid.pageNo];
      iid := iid.(slotNo := iid.slotNo + 1);
      if iid.pageNo != ih.lastLeaf && iid.slotNo == |node.keys| {
        iid := Iid(node.nextLeaf, 0);
      }
    }
  }

  /**
   Scans from leaf_begin to leaf_end, stopping (`ok` is false) where next() would fail its assertion. The scan gets
   through exactly when no leaf but the last is empty, and then it visits every entry of every leaf once, in order.
   */
  method ScanLeaves(ih: IxIndexHandle, ghost leaves: seq<int>) returns (ok: bool, visited: seq<Iid>)
    requires LeafChain(ih.nodes, leaves, ih.firstLeaf, ih.lastLeaf)
    ensures ok <==> NoEmptyLeaf(ih.nodes, leaves)
    ensures ok ==> visited == Entries(ih.nodes, leaves)
  {
    var lower := ih.LeafBegin();
    var upper := ih.LeafEnd();
    var scan := new IxScan(ih, lower, upper);
    ghost var j := 0;
    visited := [];
    while !scan.IsEnd()
      invariant scan.ih == ih && scan.end == upper && fresh(scan)
      invariant Scanned(ih.nodes, leaves, j, scan.iid, visited)
      decreases |leaves| - j, |ih.nodes[scan.iid.pageNo].keys| - scan.iid.slotNo
    {
      if !scan.OnEntry() {
        ScanStops(ih.nodes, leaves, ih.firstLeaf, ih.lastLeaf, j, scan.iid, visited);
        return false, visited;
      }
      ScanStep(ih.nodes, leaves, ih.firstLeaf, ih.lastLeaf, j, scan.iid, visited);
      var at := scan.iid;
      visited := visited + [at];
      scan.Next();
      if scan.iid.pageNo != at.pageNo || scan.iid.slotNo == 0 {
        j := j + 1;
      }
    }
    ScanStops(ih.nodes, leaves, ih.firstLeaf, ih.lastLeaf, j, scan.iid, visited);
    ok := true;
  }
}
