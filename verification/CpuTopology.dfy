/** The CPU topology tree: built sparse from the topology ids of the CPUs, then compacted and renumbered. */
module CpuTopology {
  import opened Options

  const CPU_TOPOLOGY_SMT := 0
  const CPU_TOPOLOGY_LEVELS := 3

  /** A node has no children exactly on the lowest level; an unused place of the sparse tree is None. */
  datatype Node = Node(level: nat, id: int, children: seq<Option<Node>>)

  /** The ids of a CPU, lowest level first; `sizes` bounds them. */
  predicate InRange(ids: seq<nat>, sizes: seq<nat>) {
    |ids| == |sizes| && forall j :: 0 <= j < |ids| ==> ids[j] < sizes[j]
  }

  predicate Agree(a: seq<nat>, b: seq<nat>, from: nat, to: nat) {
    to <= |a| && to <= |b| && forall j :: from <= j < to ==> a[j] == b[j]
  }

  ghost predicate Shaped(node: Node, sizes: seq<nat>)
    decreases node
  {
    && node.level <= |sizes|
    && (node.level == 0 ==> node.children == [])
    && (node.level > 0 ==> |node.children| == sizes[node.level - 1])
    && (forall i :: 0 <= i < |node.children| && node.children[i].Some? ==>
          node.children[i].value.level == node.level - 1 && Shaped(node.children[i].value, sizes))
  }

  /** `cpu_create_topology_node`: the ids are not set yet. */
  function FreshNode(level: nat, sizes: seq<nat>): (n: Node)
    requires level <= |sizes|
    ensures n.level == level && Shaped(n, sizes)
  {
    Node(level, -1, if level == 0 then [] else seq(sizes[level - 1], _ => None))
  }

  /** Walks down along the ids, creating what is missing, and enters the CPU at the leaf. */
  function Insert(node: Node, ids: seq<nat>, sizes: seq<nat>, cpu: nat): (r: Node)
    requires Shaped(node, sizes) && InRange(ids, sizes)
    ensures r.level == node.level && r.id == (if node.level == 0 then cpu else node.id) && Shaped(r, sizes)
    decreases node.level
  {
    if node.level == 0 then node.(id := cpu)
    else
      var id := ids[node.level - 1];
      var child := ChildFor(node, ids, sizes);
      node.(children := node.children[id := Some(Insert(child, ids, sizes, cpu))])
  }

  /** The node that the ids lead to on a level. */
  function NodeAt(node: Node, ids: seq<nat>, level: nat): Option<Node>
    decreases node
  {
    if node.level <= level then Some(node)
    else if node.level > |ids| || ids[node.level - 1] >= |node.children| then None
    else
      match node.children[ids[node.level - 1]]
      case None => None
      case Some(child) => NodeAt(child, ids, level)
  }

  lemma {:induction false} NothingInFresh(at: nat, sizes: seq<nat>, ids: seq<nat>, level: nat)
    requires level < at <= |sizes|
    ensures NodeAt(FreshNode(at, sizes), ids, level).None?
  {
  }

  /** The child an insertion goes on with. */
  function ChildFor(node: Node, ids: seq<nat>, sizes: seq<nat>): (child: Node)
    requires Shaped(node, sizes) && InRange(ids, sizes) && 0 < node.level
    ensures child.level == node.level - 1 && Shaped(child, sizes)
  {
    var place := node.children[ids[node.level - 1]];
    if place.Some? then place.value else FreshNode(node.level - 1, sizes)
  }

  /** Looking below the node: only ids that go to the same child see the insertion. */
  lemma {:induction false} InsertStep(node: Node, ids: seq<nat>, sizes: seq<nat>, cpu: nat, other: seq<nat>, level: nat)
    requires Shaped(node, sizes) && InRange(ids, sizes) && InRange(other, sizes) && level < node.level
    ensures var child := ChildFor(node, ids, sizes);
            var r := NodeAt(Insert(node, ids, sizes, cpu), other, level);
            if other[node.level - 1] == ids[node.level - 1] then
              && r == NodeAt(Insert(child, ids, sizes, cpu), other, level)
              && (level < child.level ==> NodeAt(node, other, level) == NodeAt(child, other, level))
            else r == NodeAt(node, other, level)
  {
    var child, id := ChildFor(node, ids, sizes), ids[node.level - 1];
    var place := node.children[id];
    Below(Insert(node, ids, sizes, cpu), other, level);
    Below(node, other, level);
    if other[node.level - 1] == id && place.None? && level < child.level {
      NothingInFresh(child.level, sizes, other, level);
    }
  }

  lemma {:induction false} Below(node: Node, ids: seq<nat>, level: nat)
    requires level < node.level <= |ids| && ids[node.level - 1] < |node.children|
    ensures var place := node.children[ids[node.level - 1]];
            NodeAt(node, ids, level) == if place.Some? then NodeAt(place.value, ids, level) else None
  {
  }

  /** After an insertion, ids lead to a node where they did before, and where they agree with the new ones. */
  lemma {:induction false} InsertAddsPath(node: Node, ids: seq<nat>, sizes: seq<nat>, cpu: nat, other: seq<nat>,
                                          level: nat)
    requires Shaped(node, sizes) && InRange(ids, sizes) && InRange(other, sizes) && level <= node.level
    ensures NodeAt(Insert(node, ids, sizes, cpu), other, level).Some?
       <==> NodeAt(node, other, level).Some? || Agree(ids, other, level, node.level)
    decreases node.level
  {
    if level < node.level {
      InsertStep(node, ids, sizes, cpu, other, level);
      InsertAddsPath(ChildFor(node, ids, sizes), ids, sizes, cpu, other, level);
      AgreeUnfolds(ids, other, level, node.level);
    }
  }

  lemma {:induction false} AgreeUnfolds(a: seq<nat>, b: seq<nat>, from: nat, to: nat)
    requires from < to <= |a| && to <= |b|
    ensures Agree(a, b, from, to) <==> a[to - 1] == b[to - 1] && Agree(a, b, from, to - 1)
  {
  }

  /** The leaf at the new ids is the new CPU, and every other leaf stays. */
  lemma {:induction false} InsertSetsLeaf(node: Node, ids: seq<nat>, sizes: seq<nat>, cpu: nat, other: seq<nat>)
    requires Shaped(node, sizes) && InRange(ids, sizes) && InRange(other, sizes)
    ensures Agree(ids, other, 0, node.level) ==>
      var leaf := NodeAt(Insert(node, ids, sizes, cpu), other, 0);
      leaf.Some? && leaf.value.id == cpu
    ensures !Agree(ids, other, 0, node.level) ==>
      NodeAt(Insert(node, ids, sizes, cpu), other, 0) == NodeAt(node, other, 0)
    decreases node.level
  {
    if 0 < node.level {
      InsertStep(node, ids, sizes, cpu, other, 0);
      InsertSetsLeaf(ChildFor(node, ids, sizes), ids, sizes, cpu, other);
      AgreeUnfolds(ids, other, 0, node.level);
    }
  }

  // ----- leaves, and the nodes of one level in depth-first order -----

  function NodesAt(node: Node, level: nat): seq<Node>
    decreases node
  {
    if node.level <= level then [node] else NodesAmong(node.children, level)
  }

  function NodesIn(place: Option<Node>, level: nat): seq<Node>
    decreases place
  {
    if place.Some? then NodesAt(place.value, level) else []
  }

  function NodesAmong(children: seq<Option<Node>>, level: nat): seq<Node>
    decreases children
  {
    if children == [] then [] else NodesIn(children[0], level) + NodesAmong(children[1..], level)
  }

  /** The CPUs under a node, from left to right. */
  function Leaves(node: Node): seq<int>
    decreases node
  {
    if node.level == 0 then [node.id] else LeavesAmong(node.children)
  }

  function LeavesIn(place: Option<Node>): seq<int>
    decreases place
  {
    if place.Some? then Leaves(place.value) else []
  }

  function LeavesAmong(children: seq<Option<Node>>): seq<int>
    decreases children
  {
    if children == [] then [] else LeavesIn(children[0]) + LeavesAmong(children[1..])
  }

  lemma {:induction false} LeavesAppend(a: seq<Option<Node>>, b: seq<Option<Node>>)
    ensures LeavesAmong(a + b) == LeavesAmong(a) + LeavesAmong(b)
  {
    if a == [] {
      assert a + b == b;
    } else {
      assert (a + b)[1..] == a[1..] + b;
      LeavesAppend(a[1..], b);
    }
  }

  lemma {:induction false} LeavesAround(children: seq<Option<Node>>, i: nat)
    requires i < |children|
    ensures LeavesAmong(children)
         == LeavesAmong(children[..i]) + (LeavesIn(children[i]) + LeavesAmong(children[i + 1..]))
  {
    assert children == children[..i] + children[i..];
    LeavesAppend(children[..i], children[i..]);
    assert children[i..][1..] == children[i + 1..];
  }

  lemma {:induction false} Exchange(left: seq<int>, a: seq<int>, b: seq<int>, right: seq<int>)
    ensures multiset(left + (b + right)) + multiset(a) == multiset(left + (a + right)) + multiset(b)
  {
    assert multiset(left + (a + right)) == multiset(left) + (multiset(a) + multiset(right));
    assert multiset(left + (b + right)) == multiset(left) + (multiset(b) + multiset(right));
  }

  lemma {:induction false} LeavesReplaced(children: seq<Option<Node>>, i: nat, place: Option<Node>)
    requires i < |children|
    ensures multiset(LeavesAmong(children[i := place])) + multiset(LeavesIn(children[i]))
         == multiset(LeavesAmong(children)) + multiset(LeavesIn(place))
  {
    var after := children[i := place];
    LeavesAround(children, i);
    LeavesAround(after, i);
    assert after[..i] == children[..i] && after[i + 1..] == children[i + 1..];
    Exchange(LeavesAmong(children[..i]), LeavesIn(children[i]), LeavesIn(place), LeavesAmong(children[i + 1..]));
  }

  lemma {:induction false} NoLeavesInFresh(children: seq<Option<Node>>)
    requires forall i :: 0 <= i < |children| ==> children[i].None?
    ensures LeavesAmong(children) == []
  {
    if children != [] {
      NoLeavesInFresh(children[1..]);
    }
  }

  /** Ids that lead nowhere yet add one leaf. */
  lemma {:induction false} InsertAddsLeaf(node: Node, ids: seq<nat>, sizes: seq<nat>, cpu: nat)
    requires Shaped(node, sizes) && InRange(ids, sizes) && 0 < node.level && NodeAt(node, ids, 0).None?
    ensures multiset(Leaves(Insert(node, ids, sizes, cpu))) == multiset(Leaves(node)) + multiset{cpu as int}
    decreases node.level
  {
    var id, child := ids[node.level - 1], ChildFor(node, ids, sizes);
    var inserted := Insert(child, ids, sizes, cpu);
    LeavesReplaced(node.children, id, Some(inserted));
    if 0 < child.level {
      if node.children[id].None? {
        NothingInFresh(child.level, sizes, ids, 0);
        NoLeavesInFresh(child.children);
      }
      InsertAddsLeaf(child, ids, sizes, cpu);
    }
    var before := multiset(LeavesIn(node.children[id]));
    assert multiset(Leaves(inserted)) == before + multiset{cpu as int};
    Cancel(multiset(Leaves(Insert(node, ids, sizes, cpu))), before, multiset(Leaves(node)), multiset{cpu as int});
  }

  lemma {:induction false} Cancel(a: multiset<int>, b: multiset<int>, c: multiset<int>, x: multiset<int>)
    requires a + b == c + (b + x)
    ensures a == c + x
  {
    forall e: int ensures a[e] == (c + x)[e] {
      assert (a + b)[e] == (c + (b + x))[e];
    }
  }

  // ----- the sparse tree of all CPUs -----

  function Sparse(cpus: seq<seq<nat>>, sizes: seq<nat>): (r: Node)
    requires forall i :: 0 <= i < |cpus| ==> InRange(cpus[i], sizes)
    ensures r.level == |sizes| && Shaped(r, sizes)
  {
    if cpus == [] then FreshNode(|sizes|, sizes)
    else Insert(Sparse(cpus[..|cpus| - 1], sizes), cpus[|cpus| - 1], sizes, |cpus| - 1)
  }

  predicate DistinctIds(cpus: seq<seq<nat>>) {
    forall i, k :: 0 <= i < k < |cpus| ==> cpus[i] != cpus[k]
  }

  function Numbers(n: nat): seq<int> {
    seq(n, i => i)
  }

  predicate SomeAgrees(cpus: seq<seq<nat>>, ids: seq<nat>, from: nat, to: nat) {
    exists i :: 0 <= i < |cpus| && Agree(cpus[i], ids, from, to)
  }

  lemma {:induction false} OneMoreAgrees(cpus: seq<seq<nat>>, last: seq<nat>, ids: seq<nat>, from: nat, to: nat)
    ensures SomeAgrees(cpus + [last], ids, from, to) <==> SomeAgrees(cpus, ids, from, to) || Agree(last, ids, from, to)
  {
    var all := cpus + [last];
    if i :| 0 <= i < |cpus| && Agree(cpus[i], ids, from, to) {
      assert all[i] == cpus[i];
    }
    assert all[|cpus|] == last;
  }

  /** Ids lead to a node of a level exactly when some CPU has them on that level and above. */
  lemma {:induction false} SparsePaths(cpus: seq<seq<nat>>, sizes: seq<nat>, ids: seq<nat>, level: nat)
    requires forall i :: 0 <= i < |cpus| ==> InRange(cpus[i], sizes)
    requires InRange(ids, sizes) && level < |sizes|
    ensures NodeAt(Sparse(cpus, sizes), ids, level).Some? <==> SomeAgrees(cpus, ids, level, |sizes|)
  {
    if cpus == [] {
      NothingInFresh(|sizes|, sizes, ids, level);
    } else {
      var init, last := cpus[..|cpus| - 1], cpus[|cpus| - 1];
      SparsePaths(init, sizes, ids, level);
      InsertAddsPath(Sparse(init, sizes), last, sizes, |init|, ids, level);
      OneMoreAgrees(init, last, ids, level, |sizes|);
      assert cpus == init + [last];
    }
  }

  /** The leaf says which CPU has the ids. */
  ghost predicate LeafNames(tree: Node, cpus: seq<seq<nat>>, ids: seq<nat>) {
    var leaf := NodeAt(tree, ids, 0);
    leaf.Some? ==> 0 <= leaf.value.id < |cpus| && cpus[leaf.value.id] == ids
  }

  lemma {:induction false} InsertNames(tree: Node, cpus: seq<seq<nat>>, last: seq<nat>, sizes: seq<nat>, ids: seq<nat>)
    requires Shaped(tree, sizes) && tree.level == |sizes| && InRange(last, sizes) && InRange(ids, sizes)
    requires LeafNames(tree, cpus, ids)
    ensures LeafNames(Insert(tree, last, sizes, |cpus|), cpus + [last], ids)
  {
    InsertSetsLeaf(tree, last, sizes, |cpus|, ids);
    if Agree(last, ids, 0, |sizes|) {
      assert last == ids;
    }
  }

  /** The leaf at the ids of a CPU is that CPU, and there are no other leaves. */
  lemma {:induction false} SparseLeaf(cpus: seq<seq<nat>>, sizes: seq<nat>, ids: seq<nat>)
    requires forall i :: 0 <= i < |cpus| ==> InRange(cpus[i], sizes)
    requires InRange(ids, sizes) && 0 < |sizes|
    ensures LeafNames(Sparse(cpus, sizes), cpus, ids)
  {
    if cpus == [] {
      NothingInFresh(|sizes|, sizes, ids, 0);
    } else {
      var init, last := cpus[..|cpus| - 1], cpus[|cpus| - 1];
      SparseLeaf(init, sizes, ids);
      InsertNames(Sparse(init, sizes), init, last, sizes, ids);
      assert cpus == init + [last];
    }
  }

  lemma {:induction false} LeafOfCpu(cpus: seq<seq<nat>>, sizes: seq<nat>, i: nat)
    requires forall i :: 0 <= i < |cpus| ==> InRange(cpus[i], sizes)
    requires DistinctIds(cpus) && 0 < |sizes| && i < |cpus|
    ensures var leaf := NodeAt(Sparse(cpus, sizes), cpus[i], 0);
            leaf.Some? && leaf.value.id == i
  {
    SparsePaths(cpus, sizes, cpus[i], 0);
    assert Agree(cpus[i], cpus[i], 0, |sizes|);
    SparseLeaf(cpus, sizes, cpus[i]);
  }

  lemma {:induction false} NewIdsLeadNowhere(cpus: seq<seq<nat>>, sizes: seq<nat>, ids: seq<nat>)
    requires forall i :: 0 <= i < |cpus| ==> InRange(cpus[i], sizes)
    requires InRange(ids, sizes) && 0 < |sizes| && forall i :: 0 <= i < |cpus| ==> cpus[i] != ids
    ensures NodeAt(Sparse(cpus, sizes), ids, 0).None?
  {
    SparsePaths(cpus, sizes, ids, 0);
    assert forall i :: 0 <= i < |cpus| && Agree(cpus[i], ids, 0, |sizes|) ==> cpus[i] == ids;
  }

  /** Every CPU is a leaf, just once, and nothing else is. */
  lemma {:induction false} SparseLeaves(cpus: seq<seq<nat>>, sizes: seq<nat>)
    requires forall i :: 0 <= i < |cpus| ==> InRange(cpus[i], sizes)
    requires DistinctIds(cpus) && 0 < |sizes|
    ensures multiset(Leaves(Sparse(cpus, sizes))) == multiset(Numbers(|cpus|))
  {
    if cpus == [] {
      NoLeavesInFresh(FreshNode(|sizes|, sizes).children);
    } else {
      var init, last := cpus[..|cpus| - 1], cpus[|cpus| - 1];
      SparseLeaves(init, sizes);
      NewIdsLeadNowhere(init, sizes, last);
      InsertAddsLeaf(Sparse(init, sizes), last, sizes, |cpus| - 1);
      assert Numbers(|cpus|) == Numbers(|init|) + [|cpus| - 1];
    }
  }

  lemma {:induction false} InsertLeafCount(node: Node, ids: seq<nat>, sizes: seq<nat>, cpu: nat)
    requires Shaped(node, sizes) && InRange(ids, sizes)
    ensures |Leaves(Insert(node, ids, sizes, cpu))| == |Leaves(node)| + if NodeAt(node, ids, 0).Some? then 0 else 1
    decreases node.level
  {
    if 0 < node.level {
      var id, child := ids[node.level - 1], ChildFor(node, ids, sizes);
      var inserted := Insert(child, ids, sizes, cpu);
      LeavesReplaced(node.children, id, Some(inserted));
      var after := Leaves(Insert(node, ids, sizes, cpu));
      assert |multiset(after) + multiset(LeavesIn(node.children[id]))| == |after| + |LeavesIn(node.children[id])|;
      assert |multiset(Leaves(node)) + multiset(Leaves(inserted))| == |Leaves(node)| + |Leaves(inserted)|;
      if node.children[id].None? && 0 < child.level {
        NothingInFresh(child.level, sizes, ids, 0);
        NoLeavesInFresh(child.children);
      }
      InsertLeafCount(child, ids, sizes, cpu);
    }
  }

  /** There are at most as many leaves as CPUs, and as many only if no two CPUs have the same ids. */
  ghost predicate Counted(leaves: seq<int>, cpus: seq<seq<nat>>) {
    |leaves| <= |cpus| && (|leaves| == |cpus| ==> DistinctIds(cpus))
  }

  lemma {:induction false} SparseLeafCount(cpus: seq<seq<nat>>, sizes: seq<nat>)
    requires forall i :: 0 <= i < |cpus| ==> InRange(cpus[i], sizes)
    requires 0 < |sizes|
    ensures Counted(Leaves(Sparse(cpus, sizes)), cpus)
  {
    if cpus == [] {
      NoLeavesInFresh(FreshNode(|sizes|, sizes).children);
    } else {
      var init, last := cpus[..|cpus| - 1], cpus[|cpus| - 1];
      SparseLeafCount(init, sizes);
      OneMoreCpu(init, last, sizes);
      assert cpus == init + [last];
    }
  }

  lemma {:induction false} OneMoreCpu(cpus: seq<seq<nat>>, last: seq<nat>, sizes: seq<nat>)
    requires forall i :: 0 <= i < |cpus| ==> InRange(cpus[i], sizes)
    requires 0 < |sizes| && InRange(last, sizes) && Counted(Leaves(Sparse(cpus, sizes)), cpus)
    ensures Counted(Leaves(Insert(Sparse(cpus, sizes), last, sizes, |cpus|)), cpus + [last])
  {
    InsertLeafCount(Sparse(cpus, sizes), last, sizes, |cpus|);
    if DistinctIds(cpus) && !DistinctIds(cpus + [last]) {
      KnownIdsLead(cpus, sizes, last);
    }
  }

  lemma {:induction false} KnownIdsLead(cpus: seq<seq<nat>>, sizes: seq<nat>, ids: seq<nat>)
    requires forall i :: 0 <= i < |cpus| ==> InRange(cpus[i], sizes)
    requires 0 < |sizes| && DistinctIds(cpus) && !DistinctIds(cpus + [ids]) && InRange(ids, sizes)
    ensures NodeAt(Sparse(cpus, sizes), ids, 0).Some?
  {
    var all := cpus + [ids];
    var i, k :| 0 <= i < k < |all| && all[i] == all[k];
    assert k == |cpus| && Agree(cpus[i], ids, 0, |sizes|);
    SparsePaths(cpus, sizes, ids, 0);
  }

  /** The leaves are the CPUs, each once, exactly when no two CPUs have the same ids; otherwise a CPU is lost. */
  lemma {:induction false} LeavesAreTheCpus(cpus: seq<seq<nat>>, sizes: seq<nat>)
    requires forall i :: 0 <= i < |cpus| ==> InRange(cpus[i], sizes)
    requires 0 < |sizes|
    ensures multiset(Leaves(Sparse(cpus, sizes))) == multiset(Numbers(|cpus|)) <==> DistinctIds(cpus)
    ensures !DistinctIds(cpus) ==> |Leaves(Sparse(cpus, sizes))| < |cpus|
  {
    SparseLeafCount(cpus, sizes);
    if DistinctIds(cpus) {
      SparseLeaves(cpus, sizes);
    } else {
      assert |multiset(Leaves(Sparse(cpus, sizes)))| == |Leaves(Sparse(cpus, sizes))|;
      assert |multiset(Numbers(|cpus|))| == |cpus|;
    }
  }

  // ----- compacting and renumbering -----

  predicate ChildLevels(children: seq<Option<Node>>, level: nat) {
    forall i :: 0 <= i < |children| && children[i].Some? ==> children[i].value.level == level
  }

  /** Every node is one level below its parent. */
  ghost predicate Leveled(node: Node)
    decreases node
  {
    if node.level == 0 then node.children == []
    else
      && ChildLevels(node.children, node.level - 1)
      && forall i :: 0 <= i < |node.children| && node.children[i].Some? ==> Leveled(node.children[i].value)
  }

  ghost predicate AllLeveled(children: seq<Option<Node>>, level: nat)
    decreases children
  {
    && ChildLevels(children, level)
    && forall i :: 0 <= i < |children| && children[i].Some? ==> Leveled(children[i].value)
  }

  lemma {:induction false} ShapedIsLeveled(node: Node, sizes: seq<nat>)
    requires Shaped(node, sizes)
    ensures Leveled(node)
    decreases node
  {
    forall i | 0 <= i < |node.children| && node.children[i].Some? ensures Leveled(node.children[i].value) {
      ShapedIsLeveled(node.children[i].value, sizes);
    }
  }

  /** The child with its number, if children of that level get one. */
  function Numbered(child: Node, lastID: seq<nat>): (Node, seq<nat>)
    requires child.level < |lastID|
  {
    if child.level == CPU_TOPOLOGY_SMT then (child, lastID)
    else (child.(id := lastID[child.level]), lastID[child.level := lastID[child.level] + 1])
  }

  /** `cpu_rebuild_topology_tree`. */
  function Rebuild(node: Node, lastID: seq<nat>): (r: (Node, seq<nat>))
    requires Leveled(node) && node.level <= |lastID|
    ensures |r.1| == |lastID| && r.0.level == node.level && r.0.id == node.id
    decreases node.level, 0, 0
  {
    if node.level == 0 then (node, lastID)
    else
      var (children, lastID') := RebuildChildren(node.children, node.level - 1, lastID);
      (node.(children := children), lastID')
  }

  function RebuildChildren(children: seq<Option<Node>>, level: nat, lastID: seq<nat>)
    : (r: (seq<Option<Node>>, seq<nat>))
    requires AllLeveled(children, level) && level < |lastID|
    ensures |r.1| == |lastID|
    decreases level, 1, |children|
  {
    if children == [] then ([], lastID)
    else if children[0].None? then RebuildChildren(children[1..], level, lastID)
    else
      var (child, last1) := Numbered(children[0].value, lastID);
      var (built, last2) := Rebuild(child, last1);
      var (rest, last3) := RebuildChildren(children[1..], level, last2);
      ([Some(built)] + rest, last3)
  }

  lemma {:induction false} RebuildByChildren(node: Node, lastID: seq<nat>)
    requires Leveled(node) && 0 < node.level <= |lastID|
    ensures var (children, last) := RebuildChildren(node.children, node.level - 1, lastID);
            Rebuild(node, lastID) == (node.(children := children), last)
  {
  }

  /** No unused places are left anywhere. */
  ghost predicate Compact(node: Node)
    decreases node
  {
    forall i :: 0 <= i < |node.children| ==> node.children[i].Some? && Compact(node.children[i].value)
  }

  /** `after` are the nodes `before` with the same leaves, numbered from `start` on. */
  ghost predicate Renumbered(before: seq<Node>, after: seq<Node>, start: nat) {
    && |after| == |before|
    && forall g :: 0 <= g < |after| ==> after[g].id == start + g && Leaves(after[g]) == Leaves(before[g])
  }

  /** What a rebuild does below a node: on every level but the lowest, the nodes keep their order and their
      leaves and are numbered on from where the counter stood. */
  ghost predicate Rebuilt(before: seq<Node>, after: seq<Node>, lastID: seq<nat>, lastID': seq<nat>, level: nat)
    requires level < |lastID| && level < |lastID'|
  {
    Renumbered(before, after, lastID[level]) && lastID'[level] == lastID[level] + |after|
  }

  lemma {:induction false} RenumberedBoth(a: seq<Node>, a': seq<Node>, b: seq<Node>, b': seq<Node>, start: nat)
    requires Renumbered(a, a', start) && Renumbered(b, b', start + |a|)
    ensures Renumbered(a + b, a' + b', start)
  {
  }

  lemma {:induction false} RebuildMeaning(node: Node, lastID: seq<nat>, level: nat)
    requires Leveled(node) && node.level <= |lastID| && 0 < level < |lastID|
    ensures var (r, last) := Rebuild(node, lastID);
            && Compact(r) && Leaves(r) == Leaves(node)
            && (level < node.level ==> Rebuilt(NodesAt(node, level), NodesAt(r, level), lastID, last, level))
            && (level >= node.level ==> last[level] == lastID[level])
    decreases node.level, 0, 0
  {
    if node.level > 0 {
      RebuildChildrenMeaning(node.children, node.level - 1, lastID, level);
    }
  }

  lemma {:induction false} RebuildChildrenMeaning(children: seq<Option<Node>>, at: nat, lastID: seq<nat>, level: nat)
    requires AllLeveled(children, at) && at < |lastID| && 0 < level < |lastID|
    ensures var (r, last) := RebuildChildren(children, at, lastID);
            && (forall i :: 0 <= i < |r| ==> r[i].Some? && Compact(r[i].value))
            && LeavesAmong(r) == LeavesAmong(children)
            && (level <= at ==> Rebuilt(NodesAmong(children, level), NodesAmong(r, level), lastID, last, level))
            && (level > at ==> last[level] == lastID[level])
    decreases at, 1, |children|
  {
    if children != [] {
      if children[0].None? {
        RebuildChildrenMeaning(children[1..], at, lastID, level);
        assert LeavesIn(children[0]) + LeavesAmong(children[1..]) == LeavesAmong(children[1..]);
        assert NodesIn(children[0], level) + NodesAmong(children[1..], level) == NodesAmong(children[1..], level);
      } else {
        FirstChildMeaning(children, at, lastID, level);
      }
    }
  }

  lemma {:induction false} FirstChildMeaning(children: seq<Option<Node>>, at: nat, lastID: seq<nat>, level: nat)
    requires AllLeveled(children, at) && at < |lastID| && 0 < level < |lastID|
    requires children != [] && children[0].Some?
    ensures var (r, last) := RebuildChildren(children, at, lastID);
            && (forall i :: 0 <= i < |r| ==> r[i].Some? && Compact(r[i].value))
            && LeavesAmong(r) == LeavesAmong(children)
            && (level <= at ==> Rebuilt(NodesAmong(children, level), NodesAmong(r, level), lastID, last, level))
            && (level > at ==> last[level] == lastID[level])
    decreases at, 1, |children|, 0
  {
    var node := children[0].value;
    var (child, last1) := Numbered(node, lastID);
    var (built, last2) := Rebuild(child, last1);
    var (rest, last3) := RebuildChildren(children[1..], at, last2);
    SameBelow(node, child.id, level);
    RebuildMeaning(child, last1, level);
    RebuildChildrenMeaning(children[1..], at, last2, level);
    assert ([Some(built)] + rest)[1..] == rest;
    if level <= at {
      RenumberedBoth(NodesAt(node, level), NodesAt(built, level), NodesAmong(children[1..], level),
                     NodesAmong(rest, level), lastID[level]);
    }
  }

  lemma {:induction false} SameBelow(node: Node, id: int, level: nat)
    requires Leveled(node)
    ensures Leveled(node.(id := id))
    ensures node.level > 0 ==> Leaves(node.(id := id)) == Leaves(node)
    ensures level < node.level ==> NodesAt(node.(id := id), level) == NodesAt(node, level)
  {
  }

  // ----- the whole tree -----

  const ZEROS: seq<nat> := [0, 0, 0]

  function Topology(cpus: seq<seq<nat>>, sizes: seq<nat>): Node
    requires |sizes| == CPU_TOPOLOGY_LEVELS && forall i :: 0 <= i < |cpus| ==> InRange(cpus[i], sizes)
  {
    var sparse := Sparse(cpus, sizes);
    ShapedIsLeveled(sparse, sizes);
    Rebuild(sparse, ZEROS).0
  }

  /** The finished tree has no unused places, its leaves are the CPUs, each once, and the ids of the cores and
      of the packages count up from 0 in depth-first order. */
  lemma {:induction false} TopologyIsDense(cpus: seq<seq<nat>>, sizes: seq<nat>, level: nat)
    requires |sizes| == CPU_TOPOLOGY_LEVELS && forall i :: 0 <= i < |cpus| ==> InRange(cpus[i], sizes)
    requires DistinctIds(cpus) && 0 < level < CPU_TOPOLOGY_LEVELS
    ensures var tree := Topology(cpus, sizes);
            && Compact(tree)
            && multiset(Leaves(tree)) == multiset(Numbers(|cpus|))
            && forall g :: 0 <= g < |NodesAt(tree, level)| ==> NodesAt(tree, level)[g].id == g
  {
    var sparse := Sparse(cpus, sizes);
    ShapedIsLeveled(sparse, sizes);
    RebuildMeaning(sparse, ZEROS, level);
    SparseLeaves(cpus, sizes);
  }

  /** Two CPUs are under the same node of a level, in the finished tree, exactly when their ids agree on that
      level and above. */
  ghost predicate Together(tree: Node, level: nat, i: int, k: int) {
    exists g :: 0 <= g < |NodesAt(tree, level)|
                && i in Leaves(NodesAt(tree, level)[g]) && k in Leaves(NodesAt(tree, level)[g])
  }

  // ----- places and paths -----

  lemma {:induction false} IdsAboveDoNotMatter(node: Node, a: seq<nat>, b: seq<nat>, level: nat)
    requires Leveled(node) && |a| == |b| && node.level <= |a| && Agree(a, b, 0, node.level)
    ensures NodeAt(node, a, level) == NodeAt(node, b, level)
    decreases node
  {
    if level < node.level && a[node.level - 1] < |node.children| {
      var place := node.children[a[node.level - 1]];
      if place.Some? {
        IdsAboveDoNotMatter(place.value, a, b, level);
      }
    }
  }

  /** A node in the order of its level lies below one of the children. */
  lemma {:induction false} ChildOfPlace(children: seq<Option<Node>>, level: nat, g: nat) returns (i: nat, h: nat)
    requires g < |NodesAmong(children, level)|
    ensures i < |children| && children[i].Some? && h < |NodesAt(children[i].value, level)|
    ensures NodesAt(children[i].value, level)[h] == NodesAmong(children, level)[g]
  {
    var first := |NodesIn(children[0], level)|;
    if g < first {
      i, h := 0, g;
    } else {
      i, h := ChildOfPlace(children[1..], level, g - first);
      i := i + 1;
    }
  }

  lemma {:induction false} PlaceOfChild(children: seq<Option<Node>>, level: nat, i: nat, h: nat) returns (g: nat)
    requires i < |children| && children[i].Some? && h < |NodesAt(children[i].value, level)|
    ensures g < |NodesAmong(children, level)|
    ensures NodesAmong(children, level)[g] == NodesAt(children[i].value, level)[h]
  {
    if i == 0 {
      g := h;
    } else {
      g := PlaceOfChild(children[1..], level, i - 1, h);
      g := g + |NodesIn(children[0], level)|;
    }
  }

  /** Every node in the order of a level is reached by some ids. */
  lemma {:induction false} NodeHasIds(node: Node, sizes: seq<nat>, level: nat, g: nat) returns (ids: seq<nat>)
    requires Shaped(node, sizes) && g < |NodesAt(node, level)|
    requires forall j :: 0 <= j < |sizes| ==> 0 < sizes[j]
    ensures InRange(ids, sizes) && NodeAt(node, ids, level) == Some(NodesAt(node, level)[g])
    decreases node
  {
    if node.level <= level {
      ids := seq(|sizes|, _ => 0);
    } else {
      var i, h := ChildOfPlace(node.children, level, g);
      var child := node.children[i].value;
      var below := NodeHasIds(child, sizes, level, h);
      ids := below[node.level - 1 := i];
      ShapedIsLeveled(child, sizes);
      IdsAboveDoNotMatter(child, ids, below, level);
    }
  }

  /** And every node that ids lead to has a place in the order. */
  lemma {:induction false} PathHasPlace(node: Node, ids: seq<nat>, level: nat) returns (g: nat)
    requires NodeAt(node, ids, level).Some?
    ensures g < |NodesAt(node, level)| && NodesAt(node, level)[g] == NodeAt(node, ids, level).value
    decreases node
  {
    if node.level <= level {
      g := 0;
    } else {
      var i := ids[node.level - 1];
      var h := PathHasPlace(node.children[i].value, ids, level);
      g := PlaceOfChild(node.children, level, i, h);
    }
  }

  lemma {:induction false} LeavesAreNodes(node: Node)
    requires Leveled(node)
    ensures |Leaves(node)| == |NodesAt(node, 0)|
    ensures forall g :: 0 <= g < |Leaves(node)| ==> Leaves(node)[g] == NodesAt(node, 0)[g].id
    decreases node
  {
    if node.level > 0 {
      LeavesAmongAreNodes(node.children, node.level - 1);
    }
  }

  lemma {:induction false} LeavesAmongAreNodes(children: seq<Option<Node>>, at: nat)
    requires AllLeveled(children, at)
    ensures |LeavesAmong(children)| == |NodesAmong(children, 0)|
    ensures forall g :: 0 <= g < |LeavesAmong(children)| ==> LeavesAmong(children)[g] == NodesAmong(children, 0)[g].id
    decreases children
  {
    if children != [] {
      LeavesAmongAreNodes(children[1..], at);
      LeavesInAreNodes(children[0], at);
    }
  }

  lemma {:induction false} LeavesInAreNodes(place: Option<Node>, at: nat)
    requires place.Some? ==> place.value.level == at && Leveled(place.value)
    ensures |LeavesIn(place)| == |NodesIn(place, 0)|
    ensures forall g :: 0 <= g < |LeavesIn(place)| ==> LeavesIn(place)[g] == NodesIn(place, 0)[g].id
    decreases place
  {
    if place.Some? {
      LeavesAreNodes(place.value);
    }
  }

  /** Going down to a level first and on from there is going down all the way. */
  lemma {:induction false} PathsCompose(node: Node, ids: seq<nat>, level: nat, to: seq<nat>)
    requires Leveled(node) && level <= node.level <= |ids| && |to| == |ids| && Agree(ids, to, level, node.level)
    requires NodeAt(node, ids, level).Some?
    ensures NodeAt(node, to, 0) == NodeAt(NodeAt(node, ids, level).value, to, 0)
    ensures Leveled(NodeAt(node, ids, level).value) && NodeAt(node, ids, level).value.level == level
    decreases node
  {
    if level < node.level {
      PathsCompose(node.children[ids[node.level - 1]].value, ids, level, to);
    }
  }

  lemma {:induction false} ShapedBelow(node: Node, sizes: seq<nat>, ids: seq<nat>, level: nat)
    requires Shaped(node, sizes) && NodeAt(node, ids, level).Some?
    ensures Shaped(NodeAt(node, ids, level).value, sizes)
    decreases node
  {
    if level < node.level {
      ShapedBelow(node.children[ids[node.level - 1]].value, sizes, ids, level);
    }
  }

  predicate TreeInput(cpus: seq<seq<nat>>, sizes: seq<nat>) {
    && |sizes| == CPU_TOPOLOGY_LEVELS && (forall j :: 0 <= j < |sizes| ==> 0 < sizes[j])
    && (forall i :: 0 <= i < |cpus| ==> InRange(cpus[i], sizes))
    && DistinctIds(cpus)
  }

  /** The leaves below a node of the sparse tree are the CPUs that share its ids. */
  lemma {:induction false} LeavesBelow(cpus: seq<seq<nat>>, sizes: seq<nat>, ids: seq<nat>, level: nat, cpu: int)
    requires TreeInput(cpus, sizes) && InRange(ids, sizes) && level < CPU_TOPOLOGY_LEVELS
    requires NodeAt(Sparse(cpus, sizes), ids, level).Some?
    ensures cpu in Leaves(NodeAt(Sparse(cpus, sizes), ids, level).value)
       <==> 0 <= cpu < |cpus| && Agree(cpus[cpu], ids, level, CPU_TOPOLOGY_LEVELS)
  {
    var tree := Sparse(cpus, sizes);
    var node := NodeAt(tree, ids, level).value;
    ShapedIsLeveled(tree, sizes);
    ShapedBelow(tree, sizes, ids, level);
    PathsCompose(tree, ids, level, ids);
    LeavesAreNodes(node);
    if cpu in Leaves(node) {
      var g :| 0 <= g < |Leaves(node)| && Leaves(node)[g] == cpu;
      var below := NodeHasIds(node, sizes, 0, g);
      var to := seq(|ids|, j requires 0 <= j < |ids| => if j < level then below[j] else ids[j]);
      IdsAboveDoNotMatter(node, to, below, 0);
      PathsCompose(tree, ids, level, to);
      SparseLeaf(cpus, sizes, to);
    }
    if 0 <= cpu < |cpus| && Agree(cpus[cpu], ids, level, CPU_TOPOLOGY_LEVELS) {
      LeafOfCpu(cpus, sizes, cpu);
      PathsCompose(tree, ids, level, cpus[cpu]);
      var g := PathHasPlace(node, cpus[cpu], 0);
      assert Leaves(node)[g] == cpu;
    }
  }

  /** Two CPUs share a node of the finished tree exactly when their ids agree on its level and above. */
  lemma {:induction false} SharingFollowsIds(cpus: seq<seq<nat>>, sizes: seq<nat>, level: nat, i: nat, k: nat)
    requires TreeInput(cpus, sizes) && 0 < level < CPU_TOPOLOGY_LEVELS && i < |cpus| && k < |cpus|
    ensures Together(Topology(cpus, sizes), level, i, k) <==> Agree(cpus[i], cpus[k], level, CPU_TOPOLOGY_LEVELS)
  {
    var sparse, tree := Sparse(cpus, sizes), Topology(cpus, sizes);
    ShapedIsLeveled(sparse, sizes);
    RebuildMeaning(sparse, ZEROS, level);
    var nodes := NodesAt(tree, level);
    if g :| 0 <= g < |nodes| && i in Leaves(nodes[g]) && k in Leaves(nodes[g]) {
      var ids := NodeHasIds(sparse, sizes, level, g);
      LeavesBelow(cpus, sizes, ids, level, i);
      LeavesBelow(cpus, sizes, ids, level, k);
    }
    if Agree(cpus[i], cpus[k], level, CPU_TOPOLOGY_LEVELS) {
      assert Agree(cpus[i], cpus[i], level, CPU_TOPOLOGY_LEVELS);
      SparsePaths(cpus, sizes, cpus[i], level);
      LeavesBelow(cpus, sizes, cpus[i], level, i);
      LeavesBelow(cpus, sizes, cpus[i], level, k);
      var g := PathHasPlace(sparse, cpus[i], level);
      assert g < |NodesAt(tree, level)| && Leaves(NodesAt(tree, level)[g]) == Leaves(NodesAt(sparse, level)[g]);
    }
  }

  // ----- the tree as it is built -----

  predicate AllHaveIds(cpus: seq<seq<nat>>) {
    forall i :: 0 <= i < |cpus| ==> |cpus[i]| == CPU_TOPOLOGY_LEVELS
  }

  /** The greatest id the CPUs have on a level. */
  function Greatest(cpus: seq<seq<nat>>, level: nat): nat
    requires level < CPU_TOPOLOGY_LEVELS && AllHaveIds(cpus)
  {
    if cpus == [] then 0
    else
      var before, id := Greatest(cpus[..|cpus| - 1], level), cpus[|cpus| - 1][level];
      if before < id then id else before
  }

  /** The number of places on every level. */
  function Places(cpus: seq<seq<nat>>): (places: seq<nat>)
    requires AllHaveIds(cpus)
    ensures |places| == CPU_TOPOLOGY_LEVELS && forall j :: 0 <= j < |places| ==> places[j] == Greatest(cpus, j) + 1
  {
    seq(CPU_TOPOLOGY_LEVELS, j requires 0 <= j < CPU_TOPOLOGY_LEVELS => Greatest(cpus, j) + 1)
  }

  /** No CPU has an id for which there is no place, and of the places of a level the last one is taken. */
  lemma {:induction false} GreatestIsAnId(cpus: seq<seq<nat>>, level: nat)
    requires level < CPU_TOPOLOGY_LEVELS && AllHaveIds(cpus)
    ensures forall i :: 0 <= i < |cpus| ==> cpus[i][level] <= Greatest(cpus, level)
    ensures cpus != [] ==> exists i :: 0 <= i < |cpus| && cpus[i][level] == Greatest(cpus, level)
  {
    if cpus != [] {
      var init, last := cpus[..|cpus| - 1], cpus[|cpus| - 1];
      GreatestIsAnId(init, level);
      assert forall i :: 0 <= i < |init| ==> cpus[i] == init[i];
      if Greatest(init, level) <= last[level] {
        assert cpus[|cpus| - 1][level] == last[level] == Greatest(cpus, level);
      } else {
        var i :| 0 <= i < |init| && init[i][level] == Greatest(init, level);
        assert cpus[i][level] == Greatest(cpus, level);
      }
    }
  }

  lemma {:induction false} PlacesSuffice(cpus: seq<seq<nat>>)
    requires AllHaveIds(cpus)
    ensures forall i :: 0 <= i < |cpus| ==> InRange(cpus[i], Places(cpus))
  {
    forall i, j | 0 <= i < |cpus| && 0 <= j < CPU_TOPOLOGY_LEVELS ensures cpus[i][j] < Places(cpus)[j] {
      GreatestIsAnId(cpus, j);
    }
  }

  /** The greatest id of every level, and one more: the number of places on it. */
  method CountPlaces(cpus: seq<seq<nat>>) returns (maxID: seq<nat>)
    requires AllHaveIds(cpus)
    ensures maxID == Places(cpus)
  {
    maxID := ZEROS;
    for i := 0 to |cpus|
      invariant |maxID| == CPU_TOPOLOGY_LEVELS
      invariant forall l :: 0 <= l < CPU_TOPOLOGY_LEVELS ==> maxID[l] == Greatest(cpus[..i], l)
    {
      assert cpus[..i + 1][..i] == cpus[..i];
      for j := 0 to CPU_TOPOLOGY_LEVELS
        invariant |maxID| == CPU_TOPOLOGY_LEVELS
        invariant forall l :: 0 <= l < CPU_TOPOLOGY_LEVELS ==>
          maxID[l] == Greatest(if l < j then cpus[..i + 1] else cpus[..i], l)
      {
        if maxID[j] < cpus[i][j] {
          maxID := maxID[j := cpus[i][j]];
        }
      }
    }
    ghost var greatest := maxID;
    assert cpus[..|cpus|] == cpus;
    for j := 0 to CPU_TOPOLOGY_LEVELS
      invariant |maxID| == CPU_TOPOLOGY_LEVELS
      invariant forall l :: 0 <= l < CPU_TOPOLOGY_LEVELS ==> maxID[l] == if l < j then greatest[l] + 1 else greatest[l]
    {
      maxID := maxID[j := maxID[j] + 1];
    }
  }

  /** `cpu_build_topology_tree`. */
  method BuildTopologyTree(cpus: seq<seq<nat>>) returns (root: Node)
    requires AllHaveIds(cpus)
    ensures (forall i :: 0 <= i < |cpus| ==> InRange(cpus[i], Places(cpus))) && root == Topology(cpus, Places(cpus))
  {
    var maxID := CountPlaces(cpus);
    PlacesSuffice(cpus);
    root := FreshNode(CPU_TOPOLOGY_LEVELS, maxID);
    for i := 0 to |cpus|
      invariant root == Sparse(cpus[..i], maxID)
    {
      assert cpus[..i + 1][..i] == cpus[..i];
      root := InsertCpu(root, cpus[i], maxID, i);
    }
    assert cpus[..|cpus|] == cpus;
    var lastID := ZEROS;
    ShapedIsLeveled(root, maxID);
    root, lastID := RebuildTopologyTree(root, lastID);
  }

  /** The walk down the levels for one CPU. */
  method InsertCpu(node: Node, ids: seq<nat>, sizes: seq<nat>, cpu: nat) returns (r: Node)
    requires Shaped(node, sizes) && InRange(ids, sizes)
    ensures r == Insert(node, ids, sizes, cpu)
    decreases node.level
  {
    if node.level == CPU_TOPOLOGY_SMT {
      return node.(id := cpu);
    }
    var id := ids[node.level - 1];
    var children := node.children;
    if children[id].None? {
      children := children[id := Some(FreshNode(node.level - 1, sizes))];
    }
    var child := InsertCpu(children[id].value, ids, sizes, cpu);
    r := node.(children := children[id := Some(child)]);
  }

  /** `cpu_rebuild_topology_tree`: the children that are there move to the front, one after the other. */
  method RebuildTopologyTree(node: Node, lastID0: seq<nat>) returns (r: Node, lastID: seq<nat>)
    requires Leveled(node) && node.level <= |lastID0|
    ensures r == Rebuild(node, lastID0).0 && lastID == Rebuild(node, lastID0).1
    decreases node.level, 0
  {
    lastID := lastID0;
    if node.level == CPU_TOPOLOGY_SMT {
      return node, lastID;
    }
    RebuildByChildren(node, lastID);
    var children;
    children, lastID := MoveChildren(node.children, node.level - 1, lastID);
    r := node.(children := children);
  }

  method MoveChild(place: Node, level: nat, lastID0: seq<nat>) returns (child: Node, lastID: seq<nat>)
    requires Leveled(place) && place.level == level < |lastID0|
    ensures var (numbered, last) := Numbered(place, lastID0); (child, lastID) == Rebuild(numbered, last)
    decreases level, 1
  {
    child, lastID := place, lastID0;
    if child.level != CPU_TOPOLOGY_SMT {
      child, lastID := child.(id := lastID[child.level]), lastID[child.level := lastID[child.level] + 1];
    }
    child, lastID := RebuildTopologyTree(child, lastID);
  }

  lemma {:induction false} Appended<T>(s: seq<T>, count: nat, x: T, rest: seq<T>)
    requires count < |s|
    ensures s[count := x][..count + 1] + rest == s[..count] + ([x] + rest)
  {
  }

  /** Its loop: what is there moves to the front, numbered and rebuilt. */
  method MoveChildren(places: seq<Option<Node>>, level: nat, lastID0: seq<nat>)
    returns (children: seq<Option<Node>>, lastID: seq<nat>)
    requires AllLeveled(places, level) && level < |lastID0|
    ensures (children, lastID) == RebuildChildren(places, level, lastID0)
    decreases level, 2
  {
    lastID := lastID0;
    var count := 0;
    children := places;
    ghost var whole := RebuildChildren(places, level, lastID0);
    for i := 0 to |places|
      invariant 0 <= count <= i && |children| == |places| && |lastID| == |lastID0|
      invariant children[i..] == places[i..]
      invariant whole.1 == RebuildChildren(places[i..], level, lastID).1
      invariant whole.0 == children[..count] + RebuildChildren(places[i..], level, lastID).0
    {
      assert places[i..][0] == places[i] == children[i..][0];
      assert places[i..][1..] == places[i + 1..] == children[i + 1..];
      if children[i].None? {
        continue;
      }
      var child;
      child, lastID := MoveChild(children[i].value, level, lastID);
      ghost var rest := RebuildChildren(places[i + 1..], level, lastID).0;
      Appended(children, count, Some(child), rest);
      children := children[count := Some(child)];
      count := count + 1;
    }
    assert places[|places|..] == [] && children[..count] + [] == children[..count];
    children := children[..count];
  }
}
