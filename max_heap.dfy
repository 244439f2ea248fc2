/** The array-backed binary max-heap of src/MaxHeap/MaxHeap.rs.
    Entries are (key, payload) pairs kept in a growable buffer (`data`);
    keys are reals (the source's f64 without NaN), payloads are opaque. */
module MaxHeap {
  import opened Util

  /** `_parent_idx`: index 0 has no parent, every other index has one below it
      whose left or right child it is. */
  function ParentIdx(idx: nat): (r: Option<nat>)
    ensures r.None? <==> idx == 0
    ensures r.Some? ==> r.value < idx && IsChild(r.value, idx)
  {
    if idx == 0 then None else Some((idx - 1) / 2)
  }

  /** `_left_idx`: the parent of the left child of `idx` is `idx`. */
  function LeftIdx(idx: nat): (r: nat)
    ensures r > idx && ParentIdx(r) == Some(idx)
  {
    idx * 2 + 1
  }

  /** `_right_idx`: the right child sits just after the left child, and its
      parent is `idx` too. */
  function RightIdx(idx: nat): (r: nat)
    ensures r == LeftIdx(idx) + 1 && ParentIdx(r) == Some(idx)
  {
    idx * 2 + 2
  }

  /** Slot `c` is the left or the right child of slot `p`. */
  predicate IsChild(p: int, c: int)
  {
    c == 2 * p + 1 || c == 2 * p + 2
  }

  /** The max-heap property: no entry has a larger key than its parent's. */
  ghost predicate HeapOrdered<V>(s: seq<(real, V)>)
  {
    forall p, c :: 0 <= p < |s| && 0 <= c < |s| && IsChild(p, c) ==> s[c].0 <= s[p].0
  }

  /** The heap property with a hole at `k` being sifted up: every edge holds
      except the one from `k` to its parent, and `k`'s children also sit below
      `k`'s parent. */
  ghost predicate HeapExceptUp<V>(s: seq<(real, V)>, k: nat)
  {
    (forall p, c :: 0 <= p < |s| && 0 <= c < |s| && IsChild(p, c) && c != k ==> s[c].0 <= s[p].0) &&
    (forall g, c :: 0 <= g < |s| && 0 <= c < |s| && IsChild(g, k) && IsChild(k, c) ==> s[c].0 <= s[g].0)
  }

  /** The heap property with a hole at `k` being sifted down: every edge holds
      except the ones from `k` to its children, and those children also sit
      below `k`'s parent. */
  ghost predicate HeapExceptDown<V>(s: seq<(real, V)>, k: nat)
  {
    (forall p, c :: 0 <= p < |s| && 0 <= c < |s| && IsChild(p, c) && p != k ==> s[c].0 <= s[p].0) &&
    (forall g, c :: 0 <= g < |s| && 0 <= c < |s| && IsChild(g, k) && IsChild(k, c) ==> s[c].0 <= s[g].0)
  }

  /** Swapping two slots permutes the entries. */
  function Swap<V>(s: seq<(real, V)>, i: nat, j: nat): (r: seq<(real, V)>)
    requires i < |s| && j < |s|
    ensures |r| == |s| && multiset(r) == multiset(s)
    ensures r[i] == s[j] && r[j] == s[i]
    ensures forall m :: 0 <= m < |s| && m != i && m != j ==> r[m] == s[m]
  {
    s[i := s[j]][j := s[i]]
  }

  /** One step of `_sift_up`: swapping a hole with its smaller parent moves
      the hole to the parent. */
  lemma SiftUpStep<V>(s: seq<(real, V)>, k: nat, parent: nat)
    requires k < |s| && parent < k && IsChild(parent, k)
    requires HeapExceptUp(s, k) && s[parent].0 < s[k].0
    ensures HeapExceptUp(Swap(s, parent, k), parent)
  {
  }

  /** `_sift_up` stops when the hole is at the root or below its parent. */
  lemma SiftUpDone<V>(s: seq<(real, V)>, k: nat)
    requires k < |s| && HeapExceptUp(s, k)
    requires k == 0 || s[k].0 <= s[(k - 1) / 2].0
    ensures HeapOrdered(s)
  {
  }

  /** One step of `_sift_down`: swapping a hole with its larger child moves
      the hole to that child. */
  lemma SiftDownStep<V>(s: seq<(real, V)>, k: nat, child: nat)
    requires child < |s| && IsChild(k, child)
    requires HeapExceptDown(s, k) && s[k].0 < s[child].0
    requires 2 * k + 1 < |s| ==> s[2 * k + 1].0 <= s[child].0
    requires 2 * k + 2 < |s| ==> s[2 * k + 2].0 <= s[child].0
    ensures HeapExceptDown(Swap(s, k, child), child)
  {
  }

  /** `_sift_down` stops when the hole is not below any of its children. */
  lemma SiftDownDone<V>(s: seq<(real, V)>, k: nat)
    requires HeapExceptDown(s, k)
    requires 2 * k + 1 < |s| ==> s[2 * k + 1].0 <= s[k].0
    requires 2 * k + 2 < |s| ==> s[2 * k + 2].0 <= s[k].0
    ensures HeapOrdered(s)
  {
  }

  /** In a heap the root carries a largest key. */
  lemma {:induction false} RootIsMax<V>(s: seq<(real, V)>, i: nat)
    requires HeapOrdered(s) && i < |s|
    ensures s[i].0 <= s[0].0
    decreases i
  {
    if i > 0 {
      var p := (i - 1) / 2;
      assert IsChild(p, i);
      RootIsMax(s, p);
    }
  }

  /** One `pop_max` as seen from outside: `e` was stored, no stored key exceeds
      its key, and exactly one copy of it left. */
  ghost predicate PopStep<V>(before: multiset<(real, V)>, e: (real, V), after: multiset<(real, V)>)
  {
    e in before && after == before - multiset{e} &&
    forall x :: x in before ==> x.0 <= e.0
  }

  /** Swapping the root with the last entry and dropping the last slot
      removes exactly the old root, a largest entry, and leaves a heap with a
      hole at the root. */
  lemma RemoveRoot<V>(before: seq<(real, V)>, after: seq<(real, V)>)
    requires HeapOrdered(before) && |before| > 0
    requires after == Swap(before, 0, |before| - 1)[..|before| - 1]
    ensures HeapExceptDown(after, 0)
    ensures PopStep(multiset(before), before[0], multiset(after))
  {
    RemoveRootShape(before, after);
    RemoveRootTakesMax(before, after);
  }

  lemma RemoveRootShape<V>(before: seq<(real, V)>, after: seq<(real, V)>)
    requires HeapOrdered(before) && |before| > 0
    requires after == Swap(before, 0, |before| - 1)[..|before| - 1]
    ensures HeapExceptDown(after, 0)
  {
  }

  lemma RemoveRootTakesMax<V>(before: seq<(real, V)>, after: seq<(real, V)>)
    requires HeapOrdered(before) && |before| > 0
    requires after == Swap(before, 0, |before| - 1)[..|before| - 1]
    ensures PopStep(multiset(before), before[0], multiset(after))
  {
    forall i | 0 <= i < |before| ensures before[i].0 <= before[0].0 {
      RootIsMax(before, i);
    }
    var swapped := Swap(before, 0, |before| - 1);
    assert swapped == after + [before[0]];
    assert multiset(swapped) == multiset(after) + multiset{before[0]};
  }

  /** Removing entries only shrinks a multiset along a run of pops. */
  lemma {:induction false} PopsShrink<V>(states: seq<multiset<(real, V)>>, outs: seq<(real, V)>, i: nat, j: nat)
    requires |states| == |outs| + 1
    requires forall k :: 0 <= k < |outs| ==> PopStep(states[k], outs[k], states[k + 1])
    requires i <= j < |states|
    ensures states[j] <= states[i]
    decreases j - i
  {
    if i < j {
      PopsShrink(states, outs, i, j - 1);
      assert PopStep(states[j - 1], outs[j - 1], states[j]);
    }
  }

  /** Repeated pops yield non-increasing keys. */
  lemma {:induction false} PopsNonIncreasing<V>(states: seq<multiset<(real, V)>>, outs: seq<(real, V)>)
    requires |states| == |outs| + 1
    requires forall k :: 0 <= k < |outs| ==> PopStep(states[k], outs[k], states[k + 1])
    ensures forall i, j :: 0 <= i < j < |outs| ==> outs[j].0 <= outs[i].0
  {
    forall i, j | 0 <= i < j < |outs|
      ensures outs[j].0 <= outs[i].0
    {
      assert PopStep(states[j], outs[j], states[j + 1]);
      assert PopStep(states[i], outs[i], states[i + 1]);
      PopsShrink(states, outs, i + 1, j);
      assert outs[j] in states[i + 1];
    }
  }

  class Heap<V> {
    /** The `VecDeque` buffer; index 0 is the root. */
    var data: seq<(real, V)>

    ghost predicate Valid()
      reads this
    {
      HeapOrdered(data)
    }

    /** `new`: an empty heap. */
    constructor ()
      ensures Valid() && data == []
    {
      data := [];
    }

    /** `len`: the number of stored entries. */
    function Len(): (n: nat)
      reads this
      ensures n == |data|
    {
      |data|
    }

    /** `_sift_up`: moves the entry at `idx` towards the root by swaps until
        its parent's key is not smaller. */
    method SiftUp(idx: nat)
      requires idx < |data| && HeapExceptUp(data, idx)
      modifies this
      ensures HeapOrdered(data)
      ensures |data| == old(|data|) && multiset(data) == old(multiset(data))
    {
      var k: nat := idx;
      while true
        invariant k < |data| && HeapExceptUp(data, k)
        invariant |data| == old(|data|) && multiset(data) == old(multiset(data))
        decreases k
      {
        if k == 0 {
          SiftUpDone(data, k);
          break;
        }
        var p := ParentIdx(k);
        match p {
          case None =>
            break;
          case Some(parent) =>
            if data[parent].0 < data[k].0 {
              SiftUpStep(data, k, parent);
              data := Swap(data, parent, k);
              k := parent;
            } else {
              SiftUpDone(data, k);
              break;
            }
        }
      }
    }

    /** `_sift_down`: moves the entry at `idx` away from the root, swapping it
        with its larger child while that child's key is larger. A slot whose
        only child is the left one is swapped at most once: that child is the
        last entry and has no children. */
    method SiftDown(idx: nat)
      requires HeapExceptDown(data, idx)
      modifies this
      ensures HeapOrdered(data)
      ensures |data| == old(|data|) && multiset(data) == old(multiset(data))
    {
      var k: nat := idx;
      while true
        invariant HeapExceptDown(data, k)
        invariant |data| == old(|data|) && multiset(data) == old(multiset(data))
        decreases |data| - k
      {
        var left := LeftIdx(k);
        var right := RightIdx(k);
        var hasLeft := left < |data|;
        var hasRight := right < |data|;
        if !hasLeft {
          // both `!has_left && !has_right` and the impossible
          // `!has_left && has_right`: the source breaks in each
          SiftDownDone(data, k);
          break;
        } else if !hasRight {
          if data[k].0 < data[left].0 {
            SiftDownStep(data, k, left);
            data := Swap(data, k, left);
            SiftDownDone(data, left);
          } else {
            SiftDownDone(data, k);
          }
          break;
        } else {
          var maxChild := if data[left].0 > data[right].0 then left else right;
          if data[k].0 < data[maxChild].0 {
            SiftDownStep(data, k, maxChild);
            data := Swap(data, k, maxChild);
            k := maxChild;
          } else {
            SiftDownDone(data, k);
            break;
          }
        }
      }
    }

    /** `insert`: appends the entry and sifts it up. */
    method Insert(k: real, v: V)
      requires Valid()
      modifies this
      ensures Valid()
      ensures |data| == old(|data|) + 1
      ensures multiset(data) == old(multiset(data)) + multiset{(k, v)}
    {
      data := data + [(k, v)];
      SiftUp(|data| - 1);
    }

    /** `pop_max`: on an empty heap, `None` and no change; otherwise the root
        is swapped with the last entry, popped off the back and returned, and
        the new root is sifted down. */
    method PopMax() returns (r: Option<(real, V)>)
      requires Valid()
      modifies this
      ensures Valid()
      ensures old(data) == [] ==> r.None? && data == old(data)
      ensures old(data) != [] ==>
        r.Some? && r.value == old(data[0]) &&
        |data| == old(|data|) - 1 &&
        PopStep(old(multiset(data)), r.value, multiset(data))
    {
      if Len() == 0 {
        r := None;
      } else {
        ghost var before := data;
        var last := |data| - 1;
        data := Swap(data, 0, last);
        var top := data[last];
        data := data[..last];
        RemoveRoot(before, data);
        SiftDown(0);
        r := Some(top);
      }
    }
  }
}
