/** The average linkage of `calculate_two` in src/BinaryTree/BinaryTree.rs,
    stated over the pairwise value table. The table is the source's
    two-level `BTree`, modelled as a nested map; scores are integers. */
module Linkage {
  import opened Util
  import opened Nodes

  type Table = map<Label, map<Label, int>>

  /** `pair_value_dict.get(a).and_then(|inner| inner.get(b))`. */
  function Lookup(t: Table, a: Label, b: Label): (r: Option<int>)
    ensures r.Some? <==> a in t && b in t[a]
    ensures r.Some? ==> r.value == t[a][b]
  {
    if a in t && b in t[a] then Some(t[a][b]) else None
  }

  /** The score counted for a cross pair: present only when exactly one of
      the two directions is in the table; both or neither count nothing. */
  function PairValue(t: Table, l: Label, r: Label): (o: Option<int>)
    ensures o.Some? <==> ((l in t && r in t[l]) != (r in t && l in t[r]))
    ensures o.Some? && l in t && r in t[l] ==> o.value == t[l][r]
    ensures o.Some? && r in t && l in t[r] ==> o.value == t[r][l]
  {
    match (Lookup(t, l, r), Lookup(t, r, l))
    case (Some(v), None) => Some(v)
    case (None, Some(v)) => Some(v)
    case (_, _) => None
  }

  /** The running (sum, size) pair of the nested loop. */
  datatype Acc = Acc(sum: int, count: int) {
    function Plus(other: Acc): Acc {
      Acc(sum + other.sum, count + other.count)
    }
  }

  /** What one cross pair adds to the running pair. */
  function Contribution(t: Table, l: Label, r: Label): Acc
  {
    match PairValue(t, l, r)
    case Some(v) => Acc(v, 1)
    case None => Acc(0, 0)
  }

  /** The inner loop: `l` against every label of `rs`, in order. */
  function Row(t: Table, l: Label, rs: seq<Label>): Acc
  {
    if |rs| == 0 then Acc(0, 0)
    else Row(t, l, rs[..|rs| - 1]).Plus(Contribution(t, l, rs[|rs| - 1]))
  }

  /** The nested loop: every label of `ls` against every label of `rs`. */
  function Cross(t: Table, ls: seq<Label>, rs: seq<Label>): Acc
  {
    if |ls| == 0 then Acc(0, 0)
    else Cross(t, ls[..|ls| - 1], rs).Plus(Row(t, ls[|ls| - 1], rs))
  }

  /** Every label of `ls` against the one label `r`. */
  function Column(t: Table, ls: seq<Label>, r: Label): Acc
  {
    if |ls| == 0 then Acc(0, 0)
    else Column(t, ls[..|ls| - 1], r).Plus(Contribution(t, ls[|ls| - 1], r))
  }

  /** `calculate_two` as a value: undefined when no cross pair was counted or
      a node is not registered; otherwise the mean score with both handles. */
  function LinkageOf(t: Table, nid: map<seq<Label>, NodeIndex>, ld: seq<Label>, rd: seq<Label>): Option<(real, NodeIndex, NodeIndex)>
  {
    var a := Cross(t, ld, rd);
    if a.count == 0 then None
    else if ld in nid && rd in nid then Some((a.sum as real / a.count as real, nid[ld], nid[rd]))
    else None
  }

  /** Every cross pair of `ls` and `rs` has exactly one direction in the table,
      as the pair-count check of the input intends. */
  ghost predicate Covers(t: Table, ls: seq<Label>, rs: seq<Label>)
  {
    forall i, j :: 0 <= i < |ls| && 0 <= j < |rs| ==> PairValue(t, ls[i], rs[j]).Some?
  }

  lemma ContributionSymmetric(t: Table, a: Label, b: Label)
    ensures Contribution(t, a, b) == Contribution(t, b, a)
  {
  }

  /** A row of `l` against `rs` is the column of `rs` against `l`. */
  lemma {:induction false} RowIsColumn(t: Table, l: Label, rs: seq<Label>)
    ensures Row(t, l, rs) == Column(t, rs, l)
  {
    if |rs| > 0 {
      RowIsColumn(t, l, rs[..|rs| - 1]);
      ContributionSymmetric(t, l, rs[|rs| - 1]);
    }
  }

  /** Extending the right side by one label adds that label's column. */
  lemma {:induction false} CrossSnoc(t: Table, ls: seq<Label>, rs: seq<Label>, x: Label)
    ensures Cross(t, ls, rs + [x]) == Cross(t, ls, rs).Plus(Column(t, ls, x))
  {
    var wider := rs + [x];
    if |ls| == 0 {
      assert Cross(t, ls, wider) == Cross(t, ls, rs) == Column(t, ls, x) == Acc(0, 0);
    } else {
      var init, last := ls[..|ls| - 1], ls[|ls| - 1];
      CrossSnoc(t, init, rs, x);
      var a, b := Cross(t, init, rs), Column(t, init, x);
      var c, d := Row(t, last, rs), Contribution(t, last, x);
      assert Row(t, last, wider) == c.Plus(d) by {
        assert wider[..|wider| - 1] == rs;
        assert wider[|wider| - 1] == x;
      }
      assert Cross(t, ls, wider) == a.Plus(b).Plus(c.Plus(d));
      PlusInterchange(a, b, c, d);
    }
  }

  lemma PlusInterchange(a: Acc, b: Acc, c: Acc, d: Acc)
    ensures a.Plus(b).Plus(c.Plus(d)) == a.Plus(c).Plus(b.Plus(d))
  {
  }

  /** The linkage does not depend on which cluster is on the left: sum and
      count are the same with the arguments swapped. */
  lemma {:induction false} CrossSymmetric(t: Table, ls: seq<Label>, rs: seq<Label>)
    ensures Cross(t, ls, rs) == Cross(t, rs, ls)
  {
    if |rs| == 0 {
      CrossEmptyRight(t, ls);
    } else {
      var init, last := rs[..|rs| - 1], rs[|rs| - 1];
      assert rs == init + [last];
      CrossSnoc(t, ls, init, last);
      CrossSymmetric(t, ls, init);
      RowIsColumn(t, last, ls);
    }
  }

  lemma {:induction false} CrossEmptyRight(t: Table, ls: seq<Label>)
    ensures Cross(t, ls, []) == Acc(0, 0)
  {
    if |ls| > 0 {
      CrossEmptyRight(t, ls[..|ls| - 1]);
    }
  }

  /** Average linkage of a merged cluster: the cross (sum, count) of
      `left ++ right` against `other` is the sum of the two parts'. */
  lemma {:induction false} CrossConcat(t: Table, l1: seq<Label>, l2: seq<Label>, rs: seq<Label>)
    ensures Cross(t, l1 + l2, rs) == Cross(t, l1, rs).Plus(Cross(t, l2, rs))
  {
    var whole := l1 + l2;
    if |l2| == 0 {
      assert whole == l1;
    } else {
      var init, last := l2[..|l2| - 1], l2[|l2| - 1];
      assert whole[..|whole| - 1] == l1 + init;
      assert whole[|whole| - 1] == last;
      CrossConcat(t, l1, init, rs);
      var a, b, c := Cross(t, l1, rs), Cross(t, init, rs), Row(t, last, rs);
      assert Cross(t, whole, rs) == Cross(t, l1 + init, rs).Plus(c);
      assert Cross(t, l2, rs) == b.Plus(c);
    }
  }

  /** With every cross pair covered, a row counts every label. */
  lemma {:induction false} RowCountCovered(t: Table, l: Label, rs: seq<Label>)
    requires forall j :: 0 <= j < |rs| ==> PairValue(t, l, rs[j]).Some?
    ensures Row(t, l, rs).count == |rs|
  {
    if |rs| > 0 {
      RowCountCovered(t, l, rs[..|rs| - 1]);
    }
  }

  /** The count never exceeds the number of cross pairs, and reaches it
      exactly when every cross pair is covered. */
  lemma {:induction false} CrossCountBound(t: Table, ls: seq<Label>, rs: seq<Label>)
    ensures 0 <= Cross(t, ls, rs).count <= |ls| * |rs|
    ensures Covers(t, ls, rs) ==> Cross(t, ls, rs).count == |ls| * |rs|
  {
    if |ls| > 0 {
      var init, last := ls[..|ls| - 1], ls[|ls| - 1];
      CrossCountBound(t, init, rs);
      RowCountBound(t, last, rs);
      if Covers(t, ls, rs) {
        assert Covers(t, init, rs) by {
          forall i, j | 0 <= i < |init| && 0 <= j < |rs| ensures PairValue(t, init[i], rs[j]).Some? {
            assert init[i] == ls[i];
          }
        }
        forall j | 0 <= j < |rs| ensures PairValue(t, last, rs[j]).Some? {
          assert last == ls[|ls| - 1];
        }
        RowCountCovered(t, last, rs);
      }
      assert |ls| * |rs| == |init| * |rs| + |rs|;
    }
  }

  lemma {:induction false} RowCountBound(t: Table, l: Label, rs: seq<Label>)
    ensures 0 <= Row(t, l, rs).count <= |rs|
  {
    if |rs| > 0 {
      RowCountBound(t, l, rs[..|rs| - 1]);
    }
  }

  /** For two non-empty registered clusters whose cross pairs are all
      covered, the linkage is defined: the mean over all |ls|*|rs| pairs. */
  lemma LinkageDefinedWhenCovered(t: Table, nid: map<seq<Label>, NodeIndex>, ls: seq<Label>, rs: seq<Label>)
    requires |ls| > 0 && |rs| > 0 && ls in nid && rs in nid
    requires Covers(t, ls, rs)
    ensures LinkageOf(t, nid, ls, rs) ==
      Some((Cross(t, ls, rs).sum as real / (|ls| * |rs|) as real, nid[ls], nid[rs]))
  {
    CrossCountBound(t, ls, rs);
    assert |ls| * |rs| > 0;
  }

  /** Swapping the clusters swaps the handles and keeps the score. */
  lemma LinkageSymmetric(t: Table, nid: map<seq<Label>, NodeIndex>, ls: seq<Label>, rs: seq<Label>)
    ensures LinkageOf(t, nid, ls, rs).None? <==> LinkageOf(t, nid, rs, ls).None?
    ensures LinkageOf(t, nid, ls, rs).Some? ==>
      var (v, i, j) := LinkageOf(t, nid, ls, rs).value;
      LinkageOf(t, nid, rs, ls) == Some((v, j, i))
  {
    CrossSymmetric(t, ls, rs);
  }
}
