/** Each cluster holds each sample at most once. The merge loop keeps this
    as long as no queued pair names one handle twice; a pair of a handle
    with itself merges a leaf with itself. Once the root is found, the
    invariant makes its members exactly the samples, each once. */
module Members {
  import opened Util
  import opened Nodes
  import opened Linkage
  import opened Arena

  predicate NoDup<T(==)>(s: seq<T>)
  {
    forall j, k :: 0 <= j < k < |s| ==> s[j] != s[k]
  }

  ghost predicate DistinctMembers(st: ArenaState)
  {
    forall i :: i in st.ind ==> NoDup(st.ind[i].data)
  }

  /** No queued pair names one handle twice. */
  ghost predicate EntriesDistinct(m: multiset<(real, HeapPair)>)
  {
    forall e :: e in m ==> e.1.fromIndex != e.1.toIndex
  }

  /** The arena ingest builds holds singletons only. */
  lemma InitialDistinct(ind: map<NodeIndex, Node>, nid: map<seq<Label>, NodeIndex>, allSamples: set<Label>)
    requires Initial(ind, nid, allSamples)
    ensures DistinctMembers(NewState(ind, nid, allSamples))
  {
  }

  /** Two duplicate-free sequences with no common element concatenate to a
      duplicate-free sequence. */
  lemma ConcatNoDup<T>(a: seq<T>, b: seq<T>)
    requires NoDup(a) && NoDup(b) && multiset(a) !! multiset(b)
    ensures NoDup(a + b)
  {
    var c := a + b;
    forall j, k | 0 <= j < k < |c| ensures c[j] != c[k] {
      if j < |a| && |a| <= k {
        assert c[j] == a[j] && a[j] in multiset(a);
        assert c[k] == b[k - |a|] && b[k - |a|] in multiset(b);
      }
    }
  }

  /** `updating` of two different handles keeps every cluster duplicate-free. */
  lemma UpdateKeepsDistinct(st: ArenaState, li: NodeIndex, ri: NodeIndex)
    requires Valid(st) && DistinctMembers(st) && li in st.ind && ri in st.ind && li != ri
    ensures DistinctMembers(UpdateArena(st, li, ri))
  {
    if !Stale(st, li, ri) {
      var st1 := MergeState(st, st.ind[li], st.ind[ri]);
      MergedFacts(st, li, ri);
      UpdateArenaMerges(st, li, ri);
      assert multiset(st.ind[li].data) !! multiset(st.ind[ri].data);
      ConcatNoDup(st.ind[li].data, st.ind[ri].data);
      DistinctAfterMerge(st, li, ri, st1);
    }
  }

  lemma DistinctAfterMerge(st: ArenaState, li: NodeIndex, ri: NodeIndex, st1: ArenaState)
    requires li in st.ind && ri in st.ind && MergedShape(st, li, ri, st1) && DistinctMembers(st)
    requires NoDup(st.ind[li].data + st.ind[ri].data)
    ensures DistinctMembers(st1)
  {
    forall i | i in st1.ind ensures NoDup(st1.ind[i].data) {
      if i != NextIndex(st) {
        assert st1.ind[i].data == st.ind[i].data;
      }
    }
  }

  /** The queued pairs stay distinct: `updating` pushes only pairs of an
      existing node with the new one. */
  lemma UpdateKeepsEntriesDistinct(st: ArenaState, li: NodeIndex, ri: NodeIndex, t: Table, m: multiset<(real, HeapPair)>)
    requires Valid(st) && li in st.ind && ri in st.ind && EntriesDistinct(m)
    ensures EntriesDistinct(m + UpdatePushed(st, li, ri, t))
  {
    if !Stale(st, li, ri) {
      var nd := st.ind[li].data + st.ind[ri].data;
      if |nd| != |st.allSamples| {
        MergedFacts(st, li, ri);
        PushedEntriesOk(t, MergeState(st, st.ind[li], st.ind[ri]), nd);
      }
    }
  }

  /** As written, `updating(i, i)` on an active singleton [s] builds the
      cluster [s, s]: the sample is counted twice. */
  lemma SelfMergeDuplicates(st: ArenaState, i: NodeIndex)
    requires Valid(st) && IsActive(st, i)
    ensures var st1 := UpdateArena(st, i, i);
      NextIndex(st) in st1.ind && st1.ind[NextIndex(st)].data == st.ind[i].data + st.ind[i].data &&
      !NoDup(st1.ind[NextIndex(st)].data)
  {
    UpdateFacts(st, i, i);
    var d := st.ind[i].data + st.ind[i].data;
    assert d[0] == d[|st.ind[i].data|];
  }

  // ---------------------------------------------------------------------
  // What the root holds

  lemma {:induction false} NoDupCard<T>(s: seq<T>)
    requires NoDup(s)
    ensures |set x | x in s| == |s|
  {
    if |s| > 0 {
      var init := s[..|s| - 1];
      assert NoDup(init);
      NoDupCard(init);
      var last := s[|s| - 1];
      assert (set x | x in s) == (set x | x in init) + {last} by {
        assert s == init + [last];
      }
      assert last !in (set x | x in init) by {
        forall k | 0 <= k < |init| ensures init[k] != last {
          assert init[k] == s[k];
        }
      }
    }
  }

  /** A sequence shorter in distinct elements than in length repeats one. */
  lemma {:induction false} DupCard<T>(s: seq<T>)
    requires !NoDup(s)
    ensures |set x | x in s| < |s|
  {
    var j, k :| 0 <= j < k < |s| && s[j] == s[k];
    var rest := s[..k] + s[k + 1..];
    assert s == s[..k] + [s[k]] + s[k + 1..];
    assert (set x | x in s) == (set x | x in rest) by {
      assert s[k] == rest[j];
      forall x | x in s ensures x in rest {
        var m :| 0 <= m < |s| && s[m] == x;
        if m < k {
          assert rest[m] == x;
        } else if m > k {
          assert rest[m - 1] == x;
        }
      }
    }
    SeqSetCard(rest);
  }

  lemma {:induction false} SeqSetCard<T>(s: seq<T>)
    ensures |set x | x in s| <= |s|
  {
    if |s| > 0 {
      var init := s[..|s| - 1];
      SeqSetCard(init);
      assert s == init + [s[|s| - 1]];
      assert (set x | x in s) == (set x | x in init) + {s[|s| - 1]};
    }
  }

  lemma SubsetEqualCard<T>(a: set<T>, b: set<T>)
    requires a <= b && |a| == |b|
    ensures a == b
  {
    if a != b {
      var x :| x in b && x !in a;
      SubsetCard(a, b - {x});
    }
  }

  /** With every cluster duplicate-free, the root holds each sample exactly
      once. */
  lemma RootHoldsEverySample(st: ArenaState)
    requires Valid(st) && DistinctMembers(st) && st.root.Some?
    ensures NoDup(st.ind[st.root.value].data)
    ensures forall s :: s in st.ind[st.root.value].data <==> s in st.allSamples
  {
    var d := st.ind[st.root.value].data;
    var members := set x | x in d;
    NoDupCard(d);
    assert members <= st.allSamples;
    SubsetEqualCard(members, st.allSamples);
  }

  /** A root that repeats a sample leaves another sample out. */
  lemma DuplicateRootMissesSample(st: ArenaState)
    requires MembersWellFormed(st) && RootWellFormed(st) && st.root.Some?
    requires !NoDup(st.ind[st.root.value].data)
    ensures exists s :: s in st.allSamples && s !in st.ind[st.root.value].data
  {
    var d := st.ind[st.root.value].data;
    var members := set x | x in d;
    DupCard(d);
    assert members <= st.allSamples;
    var missing := st.allSamples - members;
    assert st.allSamples == members + missing;
    assert |missing| > 0;
    NonEmptyHasMember(missing);
    var s :| s in missing;
    assert s in st.allSamples && s !in d;
  }
}
