/** `BinaryT` of src/BinaryTree/BinaryTree.rs: the clustering arena as an
    object whose fields its methods update in place. Each method is proved
    against the state-change functions of module Arena. */
module BinaryTree {
  import opened Util
  import opened Nodes
  import opened Linkage
  import opened Arena
  import MaxHeap
  import opened Text
  import Newick

  class BinaryT {
    var root: Option<NodeIndex>
    var ind: map<NodeIndex, Node>
    var nid: map<seq<Label>, NodeIndex>
    var allSamples: set<Label>
    var clustered: set<Label>
    var subRoots: set<NodeIndex>

    /** The fields as one value. */
    function State(): ArenaState
      reads this
    {
      ArenaState(root, ind, nid, allSamples, clustered, subRoots)
    }

    /** `BinaryT::new`. */
    constructor (indD: map<NodeIndex, Node>, nidD: map<seq<Label>, NodeIndex>, samples: set<Label>)
      ensures State() == NewState(indD, nidD, samples)
    {
      root := None;
      ind := indD;
      nid := nidD;
      allSamples := samples;
      clustered := {};
      subRoots := {};
    }

    /** `merge`: panics unless both nodes are registered; returns the new handle. */
    method Merge(left: Node, right: Node) returns (p: NodeIndex)
      requires left.data in nid && right.data in nid
      modifies this
      ensures State() == MergeState(old(State()), left, right)
      ensures p == NextIndex(old(State()))
    {
      ghost var target := MergeState(State(), left, right);
      var li := nid[left.data];
      var ri := nid[right.data];
      p := |nid| + 1;
      var parent := NewEmpty();
      var l := left.(parent := Some(p));
      var r := right.(parent := Some(p));
      parent := parent.(left := Some(li));
      parent := parent.(right := Some(ri));
      parent := AddInner(parent, l.data);
      parent := AddInner(parent, r.data);
      assert parent == Node(left.data + right.data, None, Some(li), Some(ri));
      var done := clustered;
      if |left.data| == 1 {
        assert GetLeftStr(l) == GetLeftStr(left);
        done := done + {GetLeftStr(l)};
      }
      if |right.data| == 1 {
        assert GetLeftStr(r) == GetLeftStr(right);
        done := done + {GetLeftStr(r)};
      }
      var lc := Clone(l);
      var rc := Clone(r);
      var pc := Clone(parent);
      var nid2 := nid[lc.data := li][rc.data := ri][pc.data := p];
      var ind2 := ind[li := l][ri := r][p := parent];
      assert done == target.clustered && ind2 == target.ind && nid2 == target.nid;
      clustered, nid, ind, subRoots := done, nid2, ind2, subRoots + {p};
    }

    /** `get_unclustered_leafs`. */
    function GetUnclusteredLeafs(): (r: set<Label>)
      reads this
      ensures r == Unclustered(State())
    {
      allSamples - clustered
    }

    /** `get_node_index`: the handle registered for a node's members. */
    function GetNodeIndex(node: Node): (r: Option<NodeIndex>)
      reads this
      ensures r.Some? <==> node.data in nid
      ensures r.Some? ==> r.value == nid[node.data]
      ensures RegistryInverse(State()) && r.Some? ==> r.value in ind && ind[r.value].data == node.data
    {
      if node.data in nid then Some(nid[node.data]) else None
    }

    /** Under the invariant every stored node is found at its own handle. */
    lemma NodeIndexOfNode(i: NodeIndex)
      requires RegistryInverse(State()) && i in ind
      ensures GetNodeIndex(ind[i]) == Some(i)
    {
    }

    /** `calculate_two`: the nested loop over both member sequences. */
    method CalculateTwo(leftNode: Node, rightNode: Node, t: Table) returns (o: Option<(real, NodeIndex, NodeIndex)>)
      ensures o == LinkageOf(t, nid, leftNode.data, rightNode.data)
    {
      var ls, rs := leftNode.data, rightNode.data;
      var sum, size := 0, 0;
      var i := 0;
      while i < |ls|
        invariant 0 <= i <= |ls|
        invariant Acc(sum, size) == Cross(t, ls[..i], rs)
      {
        var l := ls[i];
        var j := 0;
        while j < |rs|
          invariant 0 <= j <= |rs|
          invariant Acc(sum, size) == Cross(t, ls[..i], rs).Plus(Row(t, l, rs[..j]))
        {
          var r := rs[j];
          match (Lookup(t, l, r), Lookup(t, r, l)) {
            case (Some(v), None) =>
              sum := sum + v;
              size := size + 1;
            case (None, Some(v)) =>
              sum := sum + v;
              size := size + 1;
            case (_, _) =>
          }
          assert rs[..j + 1][..j] == rs[..j];
          j := j + 1;
        }
        assert rs[..j] == rs;
        assert ls[..i + 1][..i] == ls[..i];
        i := i + 1;
      }
      assert ls[..i] == ls;
      if size == 0 {
        o := None;
      } else {
        var value := sum as real / size as real;
        match (GetNodeIndex(leftNode), GetNodeIndex(rightNode)) {
          case (Some(a), Some(b)) => o := Some((value, a, b));
          case (_, _) => o := None;
        }
      }
    }

    /** `calculate_parallel`: the linkage of every unclustered leaf and then
        every active sub-tree root against the new node, skipping any equal
        to it. The defined results are one heap entry per such candidate. */
    method CalculateParallel(remained: set<Label>, newCentroid: Node, t: Table)
      returns (vals: seq<Option<(real, NodeIndex, NodeIndex)>>)
      requires RegistryInverse(State()) && SubRootsAreMerged(State())
      ensures multiset(EntriesOf(vals)) ==
        multiset(Values(t, nid, Candidates(State(), remained, newCentroid.data), newCentroid.data))
    {
      var nd := newCentroid.data;
      var o1 := LeafLinkages(remained, newCentroid, t);
      var o2 := RootLinkages(newCentroid, t);
      vals := o1 + o2;
      EntriesOfConcat(o1, o2);
      var leafPart, rootPart := LeafNodes(remained) - {nd}, RootNodes(State(), subRoots) - {nd};
      assert leafPart !! rootPart by {
        forall c | c in rootPart ensures |c| >= 2 {
          var i :| i in subRoots && i in ind && ind[i].parent.None? && c == ind[i].data;
        }
      }
      assert Candidates(State(), remained, nd) == leafPart + rootPart;
      RegistryIsInjective(State());
      ValuesUnion(t, nid, leafPart, rootPart, nd);
    }

    /** The first half of `calculate_parallel`: the unclustered leaves. */
    method LeafLinkages(remained: set<Label>, newCentroid: Node, t: Table)
      returns (vals: seq<Option<(real, NodeIndex, NodeIndex)>>)
      requires RegistryInverse(State())
      ensures multiset(EntriesOf(vals)) ==
        multiset(Values(t, nid, LeafNodes(remained) - {newCentroid.data}, newCentroid.data))
    {
      RegistryIsInjective(State());
      var nd := newCentroid.data;
      vals := [];
      ghost var done: set<seq<Label>> := {};
      var leaves := remained;
      while leaves != {}
        invariant leaves <= remained
        invariant done == LeafNodes(remained - leaves) - {nd}
        invariant multiset(EntriesOf(vals)) == multiset(Values(t, nid, done, nd))
        decreases |leaves|
      {
        NonEmptyHasMember(leaves);
        var s :| s in leaves;
        var leaf := NewFromStr(s);
        LeafStep(remained, leaves, s, nd, done);
        if !NodeEq(leaf, newCentroid) {
          var v := CalculateTwo(leaf, newCentroid, t);
          AddCandidate(t, nid, done, [s], nd, vals);
          vals := vals + [v];
          done := done + {[s]};
        }
        leaves := leaves - {s};
      }
      assert remained - leaves == remained;
    }

    /** The second half of `calculate_parallel`: the active sub-tree roots. */
    method RootLinkages(newCentroid: Node, t: Table)
      returns (vals: seq<Option<(real, NodeIndex, NodeIndex)>>)
      requires RegistryInverse(State())
      ensures multiset(EntriesOf(vals)) ==
        multiset(Values(t, nid, RootNodes(State(), subRoots) - {newCentroid.data}, newCentroid.data))
    {
      RegistryIsInjective(State());
      var nd := newCentroid.data;
      vals := [];
      ghost var done: set<seq<Label>> := {};
      var roots := subRoots;
      while roots != {}
        invariant roots <= subRoots
        invariant done == RootNodes(State(), subRoots - roots) - {nd}
        invariant multiset(EntriesOf(vals)) == multiset(Values(t, nid, done, nd))
        decreases |roots|
      {
        NonEmptyHasNat(roots);
        var i :| i in roots;
        RootStep(State(), roots, i, nd, done);
        if i in ind && ind[i].parent.None? && !NodeEq(ind[i], newCentroid) {
          var c := ind[i];
          var v := CalculateTwo(c, newCentroid, t);
          AddCandidate(t, nid, done, c.data, nd, vals);
          vals := vals + [v];
          done := done + {c.data};
        }
        roots := roots - {i};
      }
      assert subRoots - roots == subRoots;
    }

    /** `updating`: panics unless both handles exist; drops a stale pair;
        otherwise merges, then sets the root or pushes the new linkages. */
    method Updating(li: NodeIndex, ri: NodeIndex, heap: MaxHeap.Heap<HeapPair>, t: Table)
      requires Valid(State()) && heap.Valid()
      requires li in ind && ri in ind
      modifies this, heap
      ensures Valid(State()) && heap.Valid()
      ensures State() == UpdateArena(old(State()), li, ri)
      ensures multiset(heap.data) == old(multiset(heap.data)) + UpdatePushed(old(State()), li, ri, t)
    {
      UpdateFacts(State(), li, ri);
      var leftNode := ind[li];
      var rightNode := ind[ri];
      var leftIsClustered := leftNode.parent.Some?;
      var rightIsClustered := rightNode.parent.Some?;
      if leftIsClustered || rightIsClustered {
        return;
      }
      MergeAndLink(li, ri, heap, t);
    }

    /** The part of `updating` after the staleness check. */
    method MergeAndLink(li: NodeIndex, ri: NodeIndex, heap: MaxHeap.Heap<HeapPair>, t: Table)
      requires heap.Valid()
      requires RegistryInverse(State()) && li in ind && ri in ind && !Stale(State(), li, ri)
      requires var st1 := MergeState(State(), ind[li], ind[ri]);
        RegistryInverse(st1) && SubRootsAreMerged(st1) &&
        NextIndex(State()) in st1.ind && st1.ind[NextIndex(State())].data == ind[li].data + ind[ri].data
      modifies this, heap
      ensures heap.Valid()
      ensures State() == UpdateArena(old(State()), li, ri)
      ensures multiset(heap.data) == old(multiset(heap.data)) + UpdatePushed(old(State()), li, ri, t)
    {
      var lc := Clone(ind[li]);
      var rc := Clone(ind[ri]);
      var p := Merge(lc, rc);
      var n := ind[p];  // `get_node` of the handle just stored always finds it
      var remained := GetUnclusteredLeafs();
      if |n.data| == |allSamples| {
        root := Some(p);
        return;
      }
      var vals := CalculateParallel(remained, n, t);
      PushAll(vals, heap);
    }

    /** `to_newick`: panics unless the root is set; walks the tree breadth
        first from the root, starting the text with the root's members and
        then wrapping, for each inner node, every occurrence of its members
        joined with commas in parentheses. */
    method ToNewick() returns (out: string)
      requires root.Some? && Valid(State())
      ensures Newick.TreeShaped(ind) && root.value in ind
      ensures out == Newick.BfsText(ind, [root.value], "")
    {
      Newick.ArenaTreeShaped(State());
      out := BfsWalk(ind, root.value);
    }
  }

  /** The loop of `to_newick` over the work queue, from the root. */
  method BfsWalk(ind: map<NodeIndex, Node>, r: NodeIndex) returns (out: string)
    requires Newick.TreeShaped(ind) && r in ind
    ensures out == Newick.BfsText(ind, [r], "")
  {
    var nodes: seq<NodeIndex> := [r];
    out := "";
    while |nodes| > 0
      invariant Newick.AllIn(ind, nodes)
      invariant Newick.BfsText(ind, nodes, out) == Newick.BfsText(ind, [r], "")
      decreases Newick.Weight(ind, nodes)
    {
      ghost var before := nodes;
      var cur := nodes[0];
      nodes := nodes[1..];
      var curNode := ind[cur];
      if |curNode.data| < 2 {
        continue;
      }
      Newick.ExpandDecreases(ind, before);
      assert Newick.Split(ind, cur);
      var leftIdx := curNode.left.value;
      var rightIdx := curNode.right.value;
      nodes := nodes + [leftIdx, rightIdx];
      var curStr := Join(curNode.data, ",");
      if |out| == 0 {
        out := "(" + curStr + ");";
      } else {
        out := ReplaceAll(out, curStr, "(" + curStr + ")");
      }
    }
  }

  /** The `for_each` of `updating`: every defined result becomes one heap
      entry, in order. */
  method PushAll(vals: seq<Option<(real, NodeIndex, NodeIndex)>>, heap: MaxHeap.Heap<HeapPair>)
    requires heap.Valid()
    modifies heap
    ensures heap.Valid()
    ensures multiset(heap.data) == old(multiset(heap.data)) + multiset(EntriesOf(vals))
  {
    var k := 0;
    while k < |vals|
      invariant 0 <= k <= |vals|
      invariant heap.Valid()
      invariant multiset(heap.data) == old(multiset(heap.data)) + multiset(EntriesOf(vals[..k]))
    {
      ghost var before := multiset(heap.data);
      if vals[k].Some? {
        var o := vals[k].value;
        heap.Insert(o.0, HeapPair(o.1, o.2));
      }
      PushStep(old(multiset(heap.data)), before, multiset(heap.data), vals, k);
      k := k + 1;
    }
    assert vals[..k] == vals;
  }
}
