/** The state of the clustering arena of src/BinaryTree/BinaryTree.rs as a
    value, its well-formedness invariant, and the state change a merge makes.
    The class BinaryTree.BinaryT keeps these fields and updates them in place. */
module Arena {
  import opened Util
  import opened Nodes
  import opened Linkage

  /** `HeapPair`: the two handles a heap entry carries. */
  datatype HeapPair = HeapPair(fromIndex: NodeIndex, toIndex: NodeIndex)

  /** The fields of `BinaryT` (its unread `len` counter is left out). */
  datatype ArenaState = ArenaState(
    root: Option<NodeIndex>,
    ind: map<NodeIndex, Node>,          // index_node_dict
    nid: map<seq<Label>, NodeIndex>,    // node_index_dict, keyed by members
    allSamples: set<Label>,
    clustered: set<Label>,              // clustered_leaf_nodes
    subRoots: set<NodeIndex>)           // sub_tree_roots_index

  /** A node is active while it has no parent. */
  predicate IsActive(st: ArenaState, i: NodeIndex)
  {
    i in st.ind && st.ind[i].parent.None?
  }

  ghost function Active(st: ArenaState): set<NodeIndex>
  {
    set i | i in st.ind && st.ind[i].parent.None?
  }

  // ---------------------------------------------------------------------
  // The invariant, one concern per predicate

  /** Every handle is at most the size of the reverse map, so the handle a
      merge hands out (that size plus one) is unused. */
  ghost predicate HandlesBounded(st: ArenaState)
  {
    forall i :: i in st.ind ==> i <= |st.nid|
  }

  /** The reverse map is exactly the inverse of the forward map on members. */
  ghost predicate RegistryInverse(st: ArenaState)
  {
    (forall i :: i in st.ind ==> st.ind[i].data in st.nid && st.nid[st.ind[i].data] == i) &&
    (forall d :: d in st.nid ==> st.nid[d] in st.ind && st.ind[st.nid[d]].data == d)
  }

  /** Nodes are non-empty and hold only samples. */
  ghost predicate MembersWellFormed(st: ArenaState)
  {
    (forall i :: i in st.ind ==> |st.ind[i].data| >= 1) &&
    (forall i, s :: i in st.ind && s in st.ind[i].data ==> s in st.allSamples)
  }

  /** A node with two or more members was made by a merge: its members are
      its left child's followed by its right child's, and both children
      point back to it. */
  ghost predicate ChildrenOk(st: ArenaState, i: NodeIndex)
    requires i in st.ind
  {
    var n := st.ind[i];
    n.left.Some? && n.right.Some? && n.left.value in st.ind && n.right.value in st.ind &&
    n.data == st.ind[n.left.value].data + st.ind[n.right.value].data &&
    st.ind[n.left.value].parent == Some(i) && st.ind[n.right.value].parent == Some(i)
  }

  ghost predicate ChildrenWellFormed(st: ArenaState)
  {
    forall i :: i in st.ind && |st.ind[i].data| >= 2 ==> ChildrenOk(st, i)
  }

  /** A parent has a larger handle and strictly more members than its child. */
  ghost predicate ParentsWellFormed(st: ArenaState)
  {
    forall i :: i in st.ind && st.ind[i].parent.Some? ==>
      st.ind[i].parent.value in st.ind && i < st.ind[i].parent.value &&
      multiset(st.ind[i].data) < multiset(st.ind[st.ind[i].parent.value].data)
  }

  /** Distinct active clusters share no member. */
  ghost predicate ActiveDisjoint(st: ArenaState)
  {
    forall i, j ::
      (i in st.ind && j in st.ind && i != j && st.ind[i].parent.None? && st.ind[j].parent.None?) ==>
      multiset(st.ind[i].data) !! multiset(st.ind[j].data)
  }

  /** Each sample has its singleton registered, and it is in
      `clustered_leaf_nodes` exactly when that singleton has a parent. */
  ghost predicate LeavesTracked(st: ArenaState)
  {
    st.clustered <= st.allSamples &&
    (forall s :: s in st.allSamples ==>
      ([s] in st.nid && st.nid[[s]] in st.ind &&
       (s in st.clustered <==> st.ind[st.nid[[s]]].parent.Some?)))
  }

  /** `sub_tree_roots_index` holds exactly the nodes made by merges. */
  ghost predicate SubRootsAreMerged(st: ArenaState)
  {
    forall i :: i in st.subRoots <==> (i in st.ind && |st.ind[i].data| >= 2)
  }

  /** Once set, the root is a node holding as many members as there are samples. */
  ghost predicate RootWellFormed(st: ArenaState)
  {
    st.root.Some? ==> st.root.value in st.ind && |st.ind[st.root.value].data| == |st.allSamples|
  }

  ghost predicate Valid(st: ArenaState)
  {
    HandlesBounded(st) && RegistryInverse(st) && MembersWellFormed(st) &&
    ChildrenWellFormed(st) && ParentsWellFormed(st) && ActiveDisjoint(st) &&
    LeavesTracked(st) && SubRootsAreMerged(st) && RootWellFormed(st)
  }

  // ---------------------------------------------------------------------
  // The arena before any merge

  /** What ingest hands to `BinaryT::new`: handles 0..n-1 holding one
      distinct singleton each, registered both ways. */
  ghost predicate Initial(ind: map<NodeIndex, Node>, nid: map<seq<Label>, NodeIndex>, allSamples: set<Label>)
  {
    (forall i: nat :: i in ind <==> i < |allSamples|) &&
    (forall i :: i in ind ==> ind[i].data in nid && nid[ind[i].data] == i) &&
    (forall i :: i in ind ==> |ind[i].data| == 1 && ind[i] == Node([ind[i].data[0]], None, None, None)) &&
    (forall d :: d in nid ==> nid[d] in ind && ind[nid[d]].data == d) &&
    (forall i :: i in ind ==> ind[i].data[0] in allSamples) &&
    (forall s :: s in allSamples ==> [s] in nid) &&
    |nid| == |allSamples|
  }

  /** `BinaryT::new`: no root, nothing clustered, no sub-tree roots. */
  function NewState(ind: map<NodeIndex, Node>, nid: map<seq<Label>, NodeIndex>, allSamples: set<Label>): (st: ArenaState)
    ensures st.root.None? && st.clustered == {} && st.subRoots == {}
    ensures st.ind == ind && st.nid == nid && st.allSamples == allSamples
  {
    ArenaState(None, ind, nid, allSamples, {}, {})
  }

  /** The arena built by ingest satisfies the invariant. */
  lemma InitialValid(ind: map<NodeIndex, Node>, nid: map<seq<Label>, NodeIndex>, allSamples: set<Label>)
    requires Initial(ind, nid, allSamples)
    ensures Valid(NewState(ind, nid, allSamples))
    ensures Active(NewState(ind, nid, allSamples)) == ind.Keys
  {
    var st := NewState(ind, nid, allSamples);
    InitialBookkeeping(ind, nid, allSamples);
    InitialShape(ind, nid, allSamples);
    InitialDisjoint(ind, nid, allSamples);
    forall i ensures i in Active(st) <==> i in ind {
      if i in ind {
        assert ind[i].parent.None?;
      }
    }
  }

  lemma InitialBookkeeping(ind: map<NodeIndex, Node>, nid: map<seq<Label>, NodeIndex>, allSamples: set<Label>)
    requires Initial(ind, nid, allSamples)
    ensures var st := NewState(ind, nid, allSamples);
      HandlesBounded(st) && RegistryInverse(st) && LeavesTracked(st) && RootWellFormed(st)
  {
    var st := NewState(ind, nid, allSamples);
    assert HandlesBounded(st) by {
      forall i | i in ind ensures i <= |nid| {
      }
    }
    assert LeavesTracked(st) by {
      forall s | s in allSamples ensures nid[[s]] in ind && ind[nid[[s]]].parent.None? {
      }
    }
  }

  lemma InitialShape(ind: map<NodeIndex, Node>, nid: map<seq<Label>, NodeIndex>, allSamples: set<Label>)
    requires Initial(ind, nid, allSamples)
    ensures var st := NewState(ind, nid, allSamples);
      MembersWellFormed(st) && ChildrenWellFormed(st) && ParentsWellFormed(st) && SubRootsAreMerged(st)
  {
    var st := NewState(ind, nid, allSamples);
    assert MembersWellFormed(st) by {
      forall i, s | i in ind && s in ind[i].data ensures s in allSamples {
        assert ind[i].data == [ind[i].data[0]];
      }
    }
    assert ChildrenWellFormed(st) by {
      forall i | i in ind ensures |ind[i].data| < 2 {
      }
    }
    assert ParentsWellFormed(st) by {
      forall i | i in ind ensures ind[i].parent.None? {
      }
    }
    assert SubRootsAreMerged(st) by {
      forall i | i in ind ensures |ind[i].data| < 2 {
      }
    }
  }

  lemma InitialDisjoint(ind: map<NodeIndex, Node>, nid: map<seq<Label>, NodeIndex>, allSamples: set<Label>)
    requires Initial(ind, nid, allSamples)
    ensures ActiveDisjoint(NewState(ind, nid, allSamples))
  {
    forall i, j | i in ind && j in ind && i != j
      ensures multiset(ind[i].data) !! multiset(ind[j].data)
    {
      assert ind[i].data == [ind[i].data[0]] && ind[j].data == [ind[j].data[0]];
      assert ind[i].data != ind[j].data;
    }
  }

  // ---------------------------------------------------------------------
  // merge

  /** The handle `merge` gives the new node: `node_index_dict.len() + 1`. */
  function NextIndex(st: ArenaState): NodeIndex
  {
    |st.nid| + 1
  }

  /** The new state after `merge(left, right)`: the new node holds
      left.members ++ right.members with the two children's handles, both
      children get it as parent, singleton children's labels become
      clustered, and the new handle becomes a sub-tree root. */
  function MergeState(st: ArenaState, left: Node, right: Node): (r: ArenaState)
    requires left.data in st.nid && right.data in st.nid
    ensures r.root == st.root && r.allSamples == st.allSamples
  {
    var li := st.nid[left.data];
    var ri := st.nid[right.data];
    var p := NextIndex(st);
    var l2 := left.(parent := Some(p));
    var r2 := right.(parent := Some(p));
    var parent := Node(left.data + right.data, None, Some(li), Some(ri));
    var c1 := if |left.data| == 1 then st.clustered + {GetLeftStr(left)} else st.clustered;
    var c2 := if |right.data| == 1 then c1 + {GetLeftStr(right)} else c1;
    st.(ind := st.ind[li := l2][ri := r2][p := parent],
        nid := st.nid[l2.data := li][r2.data := ri][parent.data := p],
        clustered := c2,
        subRoots := st.subRoots + {p})
  }

  /** Following parents from any node reaches an active node whose members
      include the node's. */
  lemma {:induction false} ActiveAncestor(st: ArenaState, x: NodeIndex) returns (a: NodeIndex)
    requires HandlesBounded(st) && ParentsWellFormed(st) && x in st.ind
    ensures IsActive(st, a) && multiset(st.ind[x].data) <= multiset(st.ind[a].data)
    decreases |st.nid| - x
  {
    if st.ind[x].parent.None? {
      a := x;
    } else {
      var p := st.ind[x].parent.value;
      assert p <= |st.nid|;
      a := ActiveAncestor(st, p);
    }
  }

  /** The members of two active clusters together fit inside no active
      cluster. */
  lemma NotWithinActive(st: ArenaState, li: NodeIndex, ri: NodeIndex, a: NodeIndex)
    requires Valid(st) && IsActive(st, li) && IsActive(st, ri) && IsActive(st, a)
    ensures !(multiset(st.ind[li].data) + multiset(st.ind[ri].data) <= multiset(st.ind[a].data))
  {
    var mL, mR, mA := multiset(st.ind[li].data), multiset(st.ind[ri].data), multiset(st.ind[a].data);
    if a == li {
      var e := st.ind[ri].data[0];
      assert mR[e] >= 1;
      assert (mL + mR)[e] > mA[e];
    } else if a == ri {
      var e := st.ind[li].data[0];
      assert mL[e] >= 1;
      assert (mL + mR)[e] > mA[e];
    } else {
      var e := st.ind[li].data[0];
      assert mL[e] >= 1;
      assert mL !! mA;
      assert mA[e] == 0;
      assert (mL + mR)[e] > mA[e];
    }
  }

  /** The merged members are not yet registered and the new handle is
      unused: a merge never overwrites an entry of either map. */
  lemma MergeIsFresh(st: ArenaState, li: NodeIndex, ri: NodeIndex)
    requires Valid(st) && IsActive(st, li) && IsActive(st, ri)
    ensures st.ind[li].data + st.ind[ri].data !in st.nid
    ensures NextIndex(st) !in st.ind
  {
    var d := st.ind[li].data + st.ind[ri].data;
    forall x | x in st.ind ensures st.ind[x].data != d {
      var a := ActiveAncestor(st, x);
      NotWithinActive(st, li, ri, a);
      assert multiset(d) == multiset(st.ind[li].data) + multiset(st.ind[ri].data);
    }
  }

  /** The pieces of the state after merging two active clusters. */
  ghost predicate MergedShape(st: ArenaState, li: NodeIndex, ri: NodeIndex, st2: ArenaState)
    requires li in st.ind && ri in st.ind
  {
    var p := NextIndex(st);
    var d := st.ind[li].data + st.ind[ri].data;
    st2.ind.Keys == st.ind.Keys + {p} && p !in st.ind &&
    st2.ind[p] == Node(d, None, Some(li), Some(ri)) &&
    st2.ind[li] == st.ind[li].(parent := Some(p)) &&
    st2.ind[ri] == st.ind[ri].(parent := Some(p)) &&
    (forall i :: i in st.ind && i != li && i != ri ==> st2.ind[i] == st.ind[i]) &&
    d !in st.nid && st2.nid == st.nid[d := p] && |st2.nid| == |st.nid| + 1 &&
    (forall s :: s in st2.clustered <==>
      (s in st.clustered || st.ind[li].data == [s] || st.ind[ri].data == [s])) &&
    st2.subRoots == st.subRoots + {p} &&
    st2.root == st.root && st2.allSamples == st.allSamples
  }

  lemma MergeShape(st: ArenaState, li: NodeIndex, ri: NodeIndex)
    requires RegistryInverse(st) && MembersWellFormed(st) && li in st.ind && ri in st.ind
    requires st.ind[li].data + st.ind[ri].data !in st.nid && NextIndex(st) !in st.ind
    ensures st.ind[li].data in st.nid && st.ind[ri].data in st.nid
    ensures MergedShape(st, li, ri, MergeState(st, st.ind[li], st.ind[ri]))
  {
    var st2 := MergeState(st, st.ind[li], st.ind[ri]);
    var L, R := st.ind[li], st.ind[ri];
    assert st.nid[L.data] == li && st.nid[R.data] == ri;
    assert st.nid[L.data := li][R.data := ri] == st.nid;
    forall s ensures s in st2.clustered <==> (s in st.clustered || L.data == [s] || R.data == [s]) {
      assert |L.data| == 1 ==> L.data == [GetLeftStr(L)];
      assert |R.data| == 1 ==> R.data == [GetLeftStr(R)];
    }
  }

  lemma MergeKeepsRegistry(st: ArenaState, li: NodeIndex, ri: NodeIndex, st2: ArenaState)
    requires HandlesBounded(st) && RegistryInverse(st) && MembersWellFormed(st)
    requires li in st.ind && ri in st.ind && MergedShape(st, li, ri, st2)
    ensures HandlesBounded(st2) && RegistryInverse(st2) && MembersWellFormed(st2)
  {
    var p := NextIndex(st);
    forall i | i in st2.ind ensures st2.ind[i].data in st2.nid && st2.nid[st2.ind[i].data] == i {
      if i != p {
        assert st2.ind[i].data == st.ind[i].data;
      }
    }
    forall d | d in st2.nid ensures st2.nid[d] in st2.ind && st2.ind[st2.nid[d]].data == d {
      if d != st.ind[li].data + st.ind[ri].data {
        var i := st.nid[d];
        assert st2.ind[i].data == st.ind[i].data;
      }
    }
    forall i, s | i in st2.ind && s in st2.ind[i].data ensures s in st2.allSamples {
      if i != p {
        assert st2.ind[i].data == st.ind[i].data;
      }
    }
  }

  lemma MergeKeepsTree(st: ArenaState, li: NodeIndex, ri: NodeIndex, st2: ArenaState)
    requires HandlesBounded(st) && MembersWellFormed(st) && ChildrenWellFormed(st) && ParentsWellFormed(st)
    requires IsActive(st, li) && IsActive(st, ri) && MergedShape(st, li, ri, st2)
    ensures ChildrenWellFormed(st2) && ParentsWellFormed(st2)
  {
    var p := NextIndex(st);
    forall i | i in st2.ind && |st2.ind[i].data| >= 2 ensures ChildrenOk(st2, i) {
      if i != p {
        assert st2.ind[i].data == st.ind[i].data;
        assert ChildrenOk(st, i);
        var n := st.ind[i];
        assert n.left.value != li && n.left.value != ri;
        assert n.right.value != li && n.right.value != ri;
      }
    }
    forall i | i in st2.ind && st2.ind[i].parent.Some?
      ensures st2.ind[i].parent.value in st2.ind && i < st2.ind[i].parent.value &&
        multiset(st2.ind[i].data) < multiset(st2.ind[st2.ind[i].parent.value].data)
    {
      if i == li || i == ri {
        var e := st.ind[if i == li then ri else li].data[0];
        assert multiset(st2.ind[p].data) == multiset(st.ind[li].data) + multiset(st.ind[ri].data);
      } else if i != p {
        assert st2.ind[i] == st.ind[i];
        var q := st.ind[i].parent.value;
        assert q != p;
        assert st2.ind[q].data == st.ind[q].data;
      }
    }
  }

  lemma MergeKeepsActiveDisjoint(st: ArenaState, li: NodeIndex, ri: NodeIndex, st2: ArenaState)
    requires ActiveDisjoint(st)
    requires IsActive(st, li) && IsActive(st, ri) && MergedShape(st, li, ri, st2)
    ensures ActiveDisjoint(st2)
  {
    var p := NextIndex(st);
    var mP := multiset(st.ind[li].data) + multiset(st.ind[ri].data);
    assert multiset(st2.ind[p].data) == mP;
    forall i, j | i in st2.ind && j in st2.ind && i != j &&
      st2.ind[i].parent.None? && st2.ind[j].parent.None?
      ensures multiset(st2.ind[i].data) !! multiset(st2.ind[j].data)
    {
      if i == p {
        assert st2.ind[j] == st.ind[j];
        assert multiset(st.ind[li].data) !! multiset(st.ind[j].data);
        assert multiset(st.ind[ri].data) !! multiset(st.ind[j].data);
      } else if j == p {
        assert st2.ind[i] == st.ind[i];
        assert multiset(st.ind[li].data) !! multiset(st.ind[i].data);
        assert multiset(st.ind[ri].data) !! multiset(st.ind[i].data);
      } else {
        assert st2.ind[i] == st.ind[i] && st2.ind[j] == st.ind[j];
      }
    }
  }

  lemma MergeKeepsBookkeeping(st: ArenaState, li: NodeIndex, ri: NodeIndex, st2: ArenaState)
    requires RegistryInverse(st) && MembersWellFormed(st) && LeavesTracked(st)
    requires SubRootsAreMerged(st) && RootWellFormed(st)
    requires IsActive(st, li) && IsActive(st, ri) && MergedShape(st, li, ri, st2)
    ensures LeavesTracked(st2) && SubRootsAreMerged(st2) && RootWellFormed(st2)
  {
    var p := NextIndex(st);
    forall s | s in st.allSamples
      ensures [s] in st2.nid && st2.nid[[s]] in st2.ind &&
        (s in st2.clustered <==> st2.ind[st2.nid[[s]]].parent.Some?)
    {
      var j := st.nid[[s]];
      assert st.ind[j].data == [s];
      assert st2.nid[[s]] == j;
      if j != li && j != ri {
        assert st2.ind[j] == st.ind[j];
        assert st.ind[li].data != [s] && st.ind[ri].data != [s];
      }
    }
    assert st2.clustered <= st2.allSamples by {
      forall s | s in st2.clustered ensures s in st.allSamples {
        if s !in st.clustered {
          assert s in st.ind[li].data || s in st.ind[ri].data;
        }
      }
    }
    forall i ensures i in st2.subRoots <==> (i in st2.ind && |st2.ind[i].data| >= 2) {
      if i in st.ind && i != p {
        assert st2.ind[i].data == st.ind[i].data;
      }
    }
    if st.root.Some? {
      assert st2.ind[st.root.value].data == st.ind[st.root.value].data;
    }
  }

  /** Merging two active clusters keeps the invariant. */
  lemma MergeKeepsValid(st: ArenaState, li: NodeIndex, ri: NodeIndex)
    requires Valid(st) && IsActive(st, li) && IsActive(st, ri)
    ensures st.ind[li].data in st.nid && st.ind[ri].data in st.nid
    ensures Valid(MergeState(st, st.ind[li], st.ind[ri]))
  {
    MergeIsFresh(st, li, ri);
    MergeShape(st, li, ri);
    var st2 := MergeState(st, st.ind[li], st.ind[ri]);
    MergeKeepsRegistry(st, li, ri, st2);
    MergeKeepsTree(st, li, ri, st2);
    MergeKeepsActiveDisjoint(st, li, ri, st2);
    MergeKeepsBookkeeping(st, li, ri, st2);
  }

  /** A merge makes its two children inactive and the new node active. */
  lemma MergeActive(st: ArenaState, li: NodeIndex, ri: NodeIndex)
    requires Valid(st) && IsActive(st, li) && IsActive(st, ri)
    ensures st.ind[li].data in st.nid && st.ind[ri].data in st.nid
    ensures Active(MergeState(st, st.ind[li], st.ind[ri])) == Active(st) - {li, ri} + {NextIndex(st)}
    ensures NextIndex(st) !in Active(st)
  {
    MergeIsFresh(st, li, ri);
    MergeShape(st, li, ri);
    var st2 := MergeState(st, st.ind[li], st.ind[ri]);
    ActiveAfter(st, li, ri, st2);
  }

  lemma ActiveAfter(st: ArenaState, li: NodeIndex, ri: NodeIndex, st2: ArenaState)
    requires IsActive(st, li) && IsActive(st, ri) && MergedShape(st, li, ri, st2)
    ensures Active(st2) == Active(st) - {li, ri} + {NextIndex(st)}
  {
    var p := NextIndex(st);
    forall i ensures i in Active(st2) <==> i in Active(st) - {li, ri} + {p} {
      if i in st.ind && i != li && i != ri {
        assert st2.ind[i] == st.ind[i];
      }
    }
  }

  // ---------------------------------------------------------------------
  // Candidates for the linkage against a new node

  /** `get_unclustered_leafs`: the samples no merge has taken yet. */
  function Unclustered(st: ArenaState): (r: set<Label>)
    ensures r <= st.allSamples && r !! st.clustered
    ensures forall s :: s in st.allSamples ==> s in r || s in st.clustered
  {
    st.allSamples - st.clustered
  }

  /** Under the invariant, an unclustered sample is one whose singleton is active. */
  lemma UnclusteredAreActiveLeaves(st: ArenaState, s: Label)
    requires Valid(st)
    ensures s in Unclustered(st) <==> s in st.allSamples && IsActive(st, st.nid[[s]])
  {
  }

  /** `str_to_leaf_nodes`, as the members of the leaves it makes. */
  function LeafNodes(labels: set<Label>): set<seq<Label>>
  {
    set s | s in labels :: [s]
  }

  /** The sub-tree roots in `among` that are still active, as their members. */
  function RootNodes(st: ArenaState, among: set<NodeIndex>): set<seq<Label>>
  {
    set i | i in among && i in st.ind && st.ind[i].parent.None? :: st.ind[i].data
  }

  /** The candidates `calculate_parallel` pairs with the new node: the
      leaves of `leaves` and the active sub-tree roots, minus any equal to
      the new node. */
  function Candidates(st: ArenaState, leaves: set<Label>, nd: seq<Label>): set<seq<Label>>
  {
    (LeafNodes(leaves) + RootNodes(st, st.subRoots)) - {nd}
  }

  /** The candidates are exactly the active clusters other than the new node. */
  lemma CandidatesAreActive(st: ArenaState, nd: seq<Label>, c: seq<Label>)
    requires Valid(st)
    ensures c in Candidates(st, Unclustered(st), nd) <==>
      (c != nd && c in st.nid && IsActive(st, st.nid[c]))
  {
    if c != nd && c in st.nid && IsActive(st, st.nid[c]) {
      ActiveIsCandidate(st, c);
    }
    CandidateIsActive(st, c);
  }

  lemma ActiveIsCandidate(st: ArenaState, c: seq<Label>)
    requires RegistryInverse(st) && MembersWellFormed(st) && LeavesTracked(st) && SubRootsAreMerged(st)
    requires c in st.nid && IsActive(st, st.nid[c])
    ensures c in LeafNodes(Unclustered(st)) + RootNodes(st, st.subRoots)
  {
    var j := st.nid[c];
    assert st.ind[j].data == c;
    if |c| >= 2 {
      assert j in st.subRoots;
      assert c in RootNodes(st, st.subRoots);
    } else {
      assert |st.ind[j].data| >= 1;
      assert c == [c[0]];
      assert c[0] in st.ind[j].data;
      assert c[0] in st.allSamples;
      assert st.nid[[c[0]]] == j;
      assert c[0] in Unclustered(st);
      assert c in LeafNodes(Unclustered(st));
    }
  }

  lemma CandidateIsActive(st: ArenaState, c: seq<Label>)
    requires RegistryInverse(st) && LeavesTracked(st)
    ensures c in LeafNodes(Unclustered(st)) + RootNodes(st, st.subRoots) ==>
      c in st.nid && IsActive(st, st.nid[c])
  {
    if c in LeafNodes(Unclustered(st)) {
      var s :| s in Unclustered(st) && c == [s];
    } else if c in RootNodes(st, st.subRoots) {
      var i :| i in st.subRoots && i in st.ind && st.ind[i].parent.None? && c == st.ind[i].data;
    }
  }

  /** The heap entry `updating` pushes for one linkage result. */
  function Entry(o: (real, NodeIndex, NodeIndex)): (e: (real, HeapPair))
    ensures e.0 == o.0 && e.1.fromIndex == o.1 && e.1.toIndex == o.2
  {
    (o.0, HeapPair(o.1, o.2))
  }

  /** The heap entries for the linkage of each candidate in `cs` against `nd`
      that is defined. */
  function Values(t: Table, nid: map<seq<Label>, NodeIndex>, cs: set<seq<Label>>, nd: seq<Label>): set<(real, HeapPair)>
  {
    set c | c in cs && LinkageOf(t, nid, c, nd).Some? :: Entry(LinkageOf(t, nid, c, nd).value)
  }

  /** No two member sequences share a handle. */
  ghost predicate Injective(nid: map<seq<Label>, NodeIndex>)
  {
    forall a, b :: a in nid && b in nid && nid[a] == nid[b] ==> a == b
  }

  lemma RegistryIsInjective(st: ArenaState)
    requires RegistryInverse(st)
    ensures Injective(st.nid)
  {
  }

  /** One more candidate adds its own entry, if its linkage is defined, and
      nothing else: entries of distinct candidates carry distinct handles. */
  lemma ValuesAdd(t: Table, nid: map<seq<Label>, NodeIndex>, cs: set<seq<Label>>, c: seq<Label>, nd: seq<Label>)
    requires Injective(nid) && c !in cs
    ensures multiset(Values(t, nid, cs + {c}, nd)) ==
      multiset(Values(t, nid, cs, nd)) +
      (if LinkageOf(t, nid, c, nd).Some? then multiset{Entry(LinkageOf(t, nid, c, nd).value)} else multiset{})
  {
    var o := LinkageOf(t, nid, c, nd);
    if o.Some? {
      assert Values(t, nid, cs + {c}, nd) == Values(t, nid, cs, nd) + {Entry(o.value)};
      forall x | x in Values(t, nid, cs, nd) ensures x != Entry(o.value) {
        var c2 :| c2 in cs && LinkageOf(t, nid, c2, nd).Some? && Entry(LinkageOf(t, nid, c2, nd).value) == x;
        assert c2 != c;
      }
    } else {
      assert Values(t, nid, cs + {c}, nd) == Values(t, nid, cs, nd);
    }
  }

  /** The entries pushed for a new node `nd`: one per candidate whose
      linkage against it is defined. */
  function Pushed(t: Table, st: ArenaState, nd: seq<Label>): multiset<(real, HeapPair)>
  {
    multiset(Values(t, st.nid, Candidates(st, Unclustered(st), nd), nd))
  }

  /** Whether `updating(li, ri)` finds the pair stale: either side already
      has a parent. */
  predicate Stale(st: ArenaState, li: NodeIndex, ri: NodeIndex)
    requires li in st.ind && ri in st.ind
  {
    st.ind[li].parent.Some? || st.ind[ri].parent.Some?
  }

  /** The arena after `updating(li, ri)`: unchanged for a stale pair;
      otherwise the two are merged, and the new node becomes the root when
      it holds as many members as there are samples. */
  function UpdateArena(st: ArenaState, li: NodeIndex, ri: NodeIndex): (r: ArenaState)
    requires RegistryInverse(st) && li in st.ind && ri in st.ind
    ensures r.allSamples == st.allSamples
  {
    if Stale(st, li, ri) then st
    else
      var st1 := MergeState(st, st.ind[li], st.ind[ri]);
      if |st.ind[li].data + st.ind[ri].data| == |st.allSamples| then st1.(root := Some(NextIndex(st)))
      else st1
  }

  /** The heap entries `updating(li, ri)` pushes: none for a stale pair or
      when the root is found; otherwise one per candidate with a defined
      linkage against the new node. */
  function UpdatePushed(st: ArenaState, li: NodeIndex, ri: NodeIndex, t: Table): multiset<(real, HeapPair)>
    requires RegistryInverse(st) && li in st.ind && ri in st.ind
  {
    if Stale(st, li, ri) then multiset{}
    else
      var nd := st.ind[li].data + st.ind[ri].data;
      if |nd| == |st.allSamples| then multiset{}
      else Pushed(t, MergeState(st, st.ind[li], st.ind[ri]), nd)
  }


  /** One more label adds its singleton. */
  lemma LeafNodesAdd(labels: set<Label>, s: Label)
    ensures LeafNodes(labels + {s}) == LeafNodes(labels) + {[s]}
  {
  }

  /** One more handle adds its node's members when it is active. */
  lemma RootNodesAdd(st: ArenaState, among: set<NodeIndex>, i: NodeIndex)
    ensures RootNodes(st, among + {i}) ==
      RootNodes(st, among) + (if i in st.ind && st.ind[i].parent.None? then {st.ind[i].data} else {})
  {
  }

  /** The entries of the defined results in `vals`, in order. */
  function EntriesOf(vals: seq<Option<(real, NodeIndex, NodeIndex)>>): seq<(real, HeapPair)>
  {
    if |vals| == 0 then [] else EntriesOf(vals[..|vals| - 1]) + EntryOf(vals[|vals| - 1])
  }

  function EntryOf(v: Option<(real, NodeIndex, NodeIndex)>): seq<(real, HeapPair)>
  {
    match v
    case Some(o) => [Entry(o)]
    case None => []
  }

  lemma {:induction false} EntriesOfConcat(a: seq<Option<(real, NodeIndex, NodeIndex)>>, b: seq<Option<(real, NodeIndex, NodeIndex)>>)
    ensures EntriesOf(a + b) == EntriesOf(a) + EntriesOf(b)
    decreases |b|
  {
    if |b| == 0 {
      assert a + b == a;
    } else {
      var b0 := b[..|b| - 1];
      var ab := a + b;
      assert ab[..|ab| - 1] == a + b0;
      EntriesOfConcat(a, b0);
    }
  }

  /** Disjoint candidate sets give disjoint entries, so their entries add up. */
  lemma ValuesUnion(t: Table, nid: map<seq<Label>, NodeIndex>, a: set<seq<Label>>, b: set<seq<Label>>, nd: seq<Label>)
    requires Injective(nid) && a !! b
    ensures multiset(Values(t, nid, a + b, nd)) == multiset(Values(t, nid, a, nd)) + multiset(Values(t, nid, b, nd))
  {
    var va, vb := Values(t, nid, a, nd), Values(t, nid, b, nd);
    assert Values(t, nid, a + b, nd) == va + vb;
    assert va !! vb by {
      forall x, y | x in va && y in vb ensures x != y {
        var c1 :| c1 in a && LinkageOf(t, nid, c1, nd).Some? && Entry(LinkageOf(t, nid, c1, nd).value) == x;
        var c2 :| c2 in b && LinkageOf(t, nid, c2, nd).Some? && Entry(LinkageOf(t, nid, c2, nd).value) == y;
        assert c1 != c2;
        assert x.1.fromIndex == nid[c1] && y.1.fromIndex == nid[c2];
      }
    }
    DisjointUnionMultiset(va, vb);
  }

  lemma DisjointUnionMultiset<T>(x: set<T>, y: set<T>)
    requires x !! y
    ensures multiset(x + y) == multiset(x) + multiset(y)
  {
    forall e ensures multiset(x + y)[e] == (multiset(x) + multiset(y))[e] {
    }
  }

  /** One loop step of `calculate_parallel`: appending a fresh candidate's
      result keeps the emitted entries equal to the candidates' entries. */
  lemma AddCandidate(t: Table, nid: map<seq<Label>, NodeIndex>, done: set<seq<Label>>, c: seq<Label>, nd: seq<Label>,
                     vals: seq<Option<(real, NodeIndex, NodeIndex)>>)
    requires Injective(nid) && c !in done
    requires multiset(EntriesOf(vals)) == multiset(Values(t, nid, done, nd))
    ensures multiset(EntriesOf(vals + [LinkageOf(t, nid, c, nd)])) == multiset(Values(t, nid, done + {c}, nd))
  {
    var v := LinkageOf(t, nid, c, nd);
    assert (vals + [v])[..|vals|] == vals;
    ValuesAdd(t, nid, done, c, nd);
  }

  lemma LeafNotIn(labels: set<Label>, s: Label)
    requires s !in labels
    ensures [s] !in LeafNodes(labels)
  {
  }

  /** The set bookkeeping of one step over the unclustered leaves. */
  lemma LeafStep(remained: set<Label>, leaves: set<Label>, s: Label, nd: seq<Label>, done: set<seq<Label>>)
    requires s in leaves && leaves <= remained
    requires done == LeafNodes(remained - leaves) - {nd}
    ensures [s] !in done
    ensures (if [s] != nd then done + {[s]} else done) == LeafNodes(remained - (leaves - {s})) - {nd}
  {
    LeafNotIn(remained - leaves, s);
    assert (remained - leaves) + {s} == remained - (leaves - {s});
    LeafNodesAdd(remained - leaves, s);
  }

  /** The set bookkeeping of one step over the sub-tree roots. */
  lemma RootStep(st: ArenaState, roots: set<NodeIndex>, i: NodeIndex, nd: seq<Label>, done: set<seq<Label>>)
    requires RegistryInverse(st)
    requires i in roots && roots <= st.subRoots
    requires done == RootNodes(st, st.subRoots - roots) - {nd}
    ensures i in st.ind ==> st.ind[i].data !in done
    ensures (if i in st.ind && st.ind[i].parent.None? && st.ind[i].data != nd then done + {st.ind[i].data} else done)
      == RootNodes(st, st.subRoots - (roots - {i})) - {nd}
  {
    if i in st.ind {
      forall j | j in st.subRoots - roots && j in st.ind ensures st.ind[j].data != st.ind[i].data {
        assert st.nid[st.ind[j].data] == j;
      }
    }
    assert (st.subRoots - roots) + {i} == st.subRoots - (roots - {i});
    RootNodesAdd(st, st.subRoots - roots, i);
  }

  // ---------------------------------------------------------------------
  // What `updating` preserves

  /** Declaring a node holding as many members as there are samples the
      root keeps the invariant. */
  lemma SetRootKeepsValid(st: ArenaState, p: NodeIndex)
    requires Valid(st) && p in st.ind && |st.ind[p].data| == |st.allSamples|
    ensures Valid(st.(root := Some(p)))
  {
  }

  /** `updating` keeps the invariant. */
  lemma UpdateKeepsValid(st: ArenaState, li: NodeIndex, ri: NodeIndex)
    requires Valid(st) && li in st.ind && ri in st.ind
    ensures Valid(UpdateArena(st, li, ri))
  {
    if IsActive(st, li) && IsActive(st, ri) {
      MergeKeepsValid(st, li, ri);
      var st1 := MergeState(st, st.ind[li], st.ind[ri]);
      var p := NextIndex(st);
      if |st1.ind[p].data| == |st.allSamples| {
        SetRootKeepsValid(st1, p);
      }
    }
  }

  /** What the driver relies on about every queued pair: both handles
      exist, and a pair of a handle with itself names a singleton. */
  ghost predicate EntriesOk(st: ArenaState, m: multiset<(real, HeapPair)>)
  {
    forall e :: e in m ==>
      e.1.fromIndex in st.ind && e.1.toIndex in st.ind &&
      (e.1.fromIndex == e.1.toIndex ==> |st.ind[e.1.fromIndex].data| == 1)
  }

  /** Every entry pushed for a new node pairs an existing node with it, so
      never a node with itself. */
  lemma PushedEntriesOk(t: Table, st: ArenaState, nd: seq<Label>)
    requires RegistryInverse(st)
    ensures forall e :: e in Pushed(t, st, nd) ==>
      e.1.fromIndex in st.ind && e.1.toIndex in st.ind && e.1.fromIndex != e.1.toIndex
  {
    forall e | e in Pushed(t, st, nd)
      ensures e.1.fromIndex in st.ind && e.1.toIndex in st.ind && e.1.fromIndex != e.1.toIndex
    {
      var cs := Candidates(st, Unclustered(st), nd);
      var c :| c in cs && LinkageOf(t, st.nid, c, nd).Some? && Entry(LinkageOf(t, st.nid, c, nd).value) == e;
      assert c in st.nid && nd in st.nid && c != nd;
      assert st.ind[st.nid[c]].data == c && st.ind[st.nid[nd]].data == nd;
    }
  }

  /** `updating` keeps every queued pair, old and new, well-formed. */
  lemma UpdateKeepsEntriesOk(st: ArenaState, li: NodeIndex, ri: NodeIndex, t: Table, m: multiset<(real, HeapPair)>)
    requires Valid(st) && li in st.ind && ri in st.ind && EntriesOk(st, m)
    ensures EntriesOk(UpdateArena(st, li, ri), m + UpdatePushed(st, li, ri, t))
  {
    if IsActive(st, li) && IsActive(st, ri) {
      var st1 := MergeState(st, st.ind[li], st.ind[ri]);
      MergedFacts(st, li, ri);
      EntriesOkAfterMerge(st, li, ri, st1, m);
      PushedEntriesOk(t, st1, st.ind[li].data + st.ind[ri].data);
    }
  }

  /** The facts about a merge of two active clusters that later lemmas use,
      without the whole invariant. */
  lemma MergedFacts(st: ArenaState, li: NodeIndex, ri: NodeIndex)
    requires Valid(st) && IsActive(st, li) && IsActive(st, ri)
    ensures st.ind[li].data in st.nid && st.ind[ri].data in st.nid
    ensures MergedShape(st, li, ri, MergeState(st, st.ind[li], st.ind[ri]))
    ensures RegistryInverse(MergeState(st, st.ind[li], st.ind[ri]))
  {
    MergeIsFresh(st, li, ri);
    MergeShape(st, li, ri);
    MergeKeepsRegistry(st, li, ri, MergeState(st, st.ind[li], st.ind[ri]));
  }

  lemma EntriesOkAfterMerge(st: ArenaState, li: NodeIndex, ri: NodeIndex, st2: ArenaState, m: multiset<(real, HeapPair)>)
    requires li in st.ind && ri in st.ind && MergedShape(st, li, ri, st2) && EntriesOk(st, m)
    ensures EntriesOk(st2, m)
  {
    forall e | e in m ensures
      e.1.fromIndex in st2.ind && e.1.toIndex in st2.ind &&
      (e.1.fromIndex == e.1.toIndex ==> |st2.ind[e.1.fromIndex].data| == 1)
    {
      var i := e.1.fromIndex;
      assert st2.ind[i].data == st.ind[i].data;
    }
  }

  /** What a merge that is not stale uses up: active clusters plus
      unclustered samples. */
  ghost function Progress(st: ArenaState): nat
  {
    |Active(st)| + |Unclustered(st)|
  }

  /** A non-stale `updating` whose pair is not a handle with a larger node
      of its own uses up at least one active cluster or unclustered sample. */
  lemma UpdateProgress(st: ArenaState, li: NodeIndex, ri: NodeIndex)
    requires Valid(st) && IsActive(st, li) && IsActive(st, ri)
    requires li == ri ==> |st.ind[li].data| == 1
    ensures Progress(UpdateArena(st, li, ri)) < Progress(st)
  {
    UpdateArenaMerges(st, li, ri);
    MergedFacts(st, li, ri);
    MergeActive(st, li, ri);
    var st1 := MergeState(st, st.ind[li], st.ind[ri]);
    var s := st.ind[li].data[0];
    if li == ri {
      SelfMergeClusters(st, li, s);
    }
    UnclusteredShrinks(st, li, ri, st1, s);
    ProgressCount(Active(st), Active(st1), Unclustered(st), Unclustered(st1), li, ri, NextIndex(st), s);
  }

  /** A pair that is not stale changes the arena as the merge does, up to `root`. */
  lemma UpdateArenaMerges(st: ArenaState, li: NodeIndex, ri: NodeIndex)
    requires RegistryInverse(st) && IsActive(st, li) && IsActive(st, ri)
    ensures var st1, st2 := MergeState(st, st.ind[li], st.ind[ri]), UpdateArena(st, li, ri);
      st2 == st1.(root := st2.root) &&
      Active(st2) == Active(st1) && Unclustered(st2) == Unclustered(st1)
  {
  }

  /** A singleton's label is unclustered exactly while it is active. */
  lemma SelfMergeClusters(st: ArenaState, li: NodeIndex, s: Label)
    requires Valid(st) && IsActive(st, li) && |st.ind[li].data| == 1 && s == st.ind[li].data[0]
    ensures s in Unclustered(st) && st.ind[li].data == [s]
  {
    assert st.ind[li].data == [s];
    assert st.nid[[s]] == li;
    assert s in st.ind[li].data;
  }

  lemma UnclusteredShrinks(st: ArenaState, li: NodeIndex, ri: NodeIndex, st1: ArenaState, s: Label)
    requires li in st.ind && ri in st.ind && MergedShape(st, li, ri, st1)
    ensures Unclustered(st1) <= Unclustered(st)
    ensures st.ind[li].data == [s] ==> s !in Unclustered(st1)
  {
  }

  lemma ProgressCount<T>(A: set<NodeIndex>, A1: set<NodeIndex>, U: set<T>, U1: set<T>,
                         li: NodeIndex, ri: NodeIndex, p: NodeIndex, s: T)
    requires li in A && ri in A && p !in A && A1 == A - {li, ri} + {p}
    requires U1 <= U
    requires li == ri ==> s in U && s !in U1
    ensures |A1| + |U1| < |A| + |U|
  {
    if li != ri {
      SubsetCard(U1, U);
      assert A == (A - {li, ri}) + {li, ri};
      assert |A - {li, ri}| == |A| - 2;
    } else {
      SubsetCard(U1, U - {s});
      assert A == (A - {li}) + {li};
    }
  }

  /** What `updating` needs about one call, in one place: the invariant
      afterwards, the arena in each case, and, when the pair is not stale,
      what the merge and the linkage computation need. */
  lemma UpdateFacts(st: ArenaState, li: NodeIndex, ri: NodeIndex)
    requires Valid(st) && li in st.ind && ri in st.ind
    ensures Valid(UpdateArena(st, li, ri))
    ensures Stale(st, li, ri) ==> UpdateArena(st, li, ri) == st
    ensures !Stale(st, li, ri) ==>
      var st1 := MergeState(st, st.ind[li], st.ind[ri]);
      var nd := st.ind[li].data + st.ind[ri].data;
      st.ind[li].data in st.nid && st.ind[ri].data in st.nid &&
      RegistryInverse(st1) && SubRootsAreMerged(st1) &&
      NextIndex(st) in st1.ind && st1.ind[NextIndex(st)].data == nd &&
      UpdateArena(st, li, ri) == (if |nd| == |st.allSamples| then st1.(root := Some(NextIndex(st))) else st1)
  {
    UpdateKeepsValid(st, li, ri);
    if !Stale(st, li, ri) {
      MergeKeepsValid(st, li, ri);
    }
  }

  /** One step of pushing the results in order. */
  lemma PushStep(base: multiset<(real, HeapPair)>, before: multiset<(real, HeapPair)>, after: multiset<(real, HeapPair)>,
                 vals: seq<Option<(real, NodeIndex, NodeIndex)>>, k: nat)
    requires k < |vals|
    requires before == base + multiset(EntriesOf(vals[..k]))
    requires vals[k].Some? ==> after == before + multiset{Entry(vals[k].value)}
    requires vals[k].None? ==> after == before
    ensures after == base + multiset(EntriesOf(vals[..k + 1]))
  {
    assert vals[..k + 1][..k] == vals[..k];
  }
}
