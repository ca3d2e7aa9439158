/** Heaps of file indices: the facts behind mz_zip_reader_sort_central_dir_offsets_by_filename of miniz.c. */
module ZipHeap {
  import opened ZipNames

  ghost predicate Indices(names: seq<seq<nat>>, a: seq<nat>) {
    forall p :: 0 <= p < |a| ==> a[p] < |names|
  }

  /** The rank of the file at place p. */
  ghost function At(names: seq<seq<nat>>, a: seq<nat>, p: nat): nat
    requires Indices(names, a) && p < |a|
  {
    Rank(names, a[p])
  }

  /** Place p is not before its children, as far as they lie below end. */
  ghost predicate Dominates(names: seq<seq<nat>>, a: seq<nat>, p: nat, end: nat)
    requires Indices(names, a) && end <= |a|
  {
    && (2 * p + 1 < end ==> At(names, a, 2 * p + 1) <= At(names, a, p))
    && (2 * p + 2 < end ==> At(names, a, 2 * p + 2) <= At(names, a, p))
  }

  ghost predicate Heap(names: seq<seq<nat>>, a: seq<nat>, lo: nat, end: nat) {
    Indices(names, a) && end <= |a| && forall p: nat :: lo <= p < end ==> Dominates(names, a, p, end)
  }

  /** The children of root are not before the parent of root either. */
  ghost predicate GrandparentOk(names: seq<seq<nat>>, a: seq<nat>, q: nat, root: nat, end: nat)
    requires Indices(names, a) && end <= |a|
  {
    q < root < end && (2 * q + 1 == root || 2 * q + 2 == root) ==>
      && (2 * root + 1 < end ==> At(names, a, 2 * root + 1) <= At(names, a, q))
      && (2 * root + 2 < end ==> At(names, a, 2 * root + 2) <= At(names, a, q))
  }

  /** A heap from lo on, but for the place root. */
  ghost predicate HeapBut(names: seq<seq<nat>>, a: seq<nat>, lo: nat, end: nat, root: nat) {
    && Indices(names, a) && end <= |a| && lo <= root
    && (forall p: nat :: lo <= p < end && p != root ==> Dominates(names, a, p, end))
    && (forall q: nat :: lo <= q < end ==> GrandparentOk(names, a, q, root, end))
  }

  ghost function Swapped(a: seq<nat>, i: nat, j: nat): (b: seq<nat>)
    requires i < |a| && j < |a|
    ensures |b| == |a|
  {
    a[i := a[j]][j := a[i]]
  }

  lemma SwapKeeps(names: seq<seq<nat>>, a: seq<nat>, i: nat, j: nat)
    requires Indices(names, a) && i < |a| && j < |a|
    ensures Indices(names, Swapped(a, i, j)) && multiset(Swapped(a, i, j)) == multiset(a)
  {}

  ghost predicate LargerChild(names: seq<seq<nat>>, a: seq<nat>, root: nat, child: nat, end: nat) {
    && Indices(names, a) && end <= |a| && root < child < end
    && (child == 2 * root + 1 || child == 2 * root + 2)
    && (2 * root + 1 < end ==> At(names, a, 2 * root + 1) <= At(names, a, child))
    && (2 * root + 2 < end ==> At(names, a, 2 * root + 2) <= At(names, a, child))
  }

  /** Sifting one level down. */
  lemma SiftStep(names: seq<seq<nat>>, a: seq<nat>, lo: nat, end: nat, root: nat, child: nat)
    requires HeapBut(names, a, lo, end, root) && LargerChild(names, a, root, child, end)
    requires At(names, a, root) < At(names, a, child)
    ensures HeapBut(names, Swapped(a, root, child), lo, end, child)
  {
    var b := Swapped(a, root, child);
    SwapKeeps(names, a, root, child);
    forall p: nat | lo <= p < end && p != child
      ensures Dominates(names, b, p, end)
    {
      if p != root {
        assert Dominates(names, a, p, end) && GrandparentOk(names, a, p, root, end);
      }
    }
    forall q: nat | lo <= q < end
      ensures GrandparentOk(names, b, q, child, end)
    {
      assert Dominates(names, a, child, end);
    }
  }

  lemma SiftDone(names: seq<seq<nat>>, a: seq<nat>, lo: nat, end: nat, root: nat)
    requires HeapBut(names, a, lo, end, root) && (root < end ==> Dominates(names, a, root, end))
    ensures Heap(names, a, lo, end)
  {}

  /** Before the first sift at `start`. */
  lemma SiftStart(names: seq<seq<nat>>, a: seq<nat>, start: nat, end: nat)
    requires Heap(names, a, start + 1, end)
    ensures HeapBut(names, a, start, end, start)
  {}

  /** Leaves dominate. */
  lemma LeavesAreHeap(names: seq<seq<nat>>, a: seq<nat>, lo: nat)
    requires Indices(names, a) && |a| <= 2 * lo + 1
    ensures Heap(names, a, lo, |a|)
  {}

  /** The last file in order is at the top. */
  lemma {:induction false} TopIsLast(names: seq<seq<nat>>, a: seq<nat>, end: nat, i: nat)
    requires Heap(names, a, 0, end) && i < end
    ensures At(names, a, i) <= At(names, a, 0)
    decreases i
  {
    if i > 0 {
      var p := (i - 1) / 2;
      TopIsLast(names, a, end, p);
      assert Dominates(names, a, p, end);
    }
  }

  /** Places from end on are in order, and nothing before end comes after them. */
  ghost predicate Settled(names: seq<seq<nat>>, a: seq<nat>, end: nat) {
    && Indices(names, a) && end <= |a|
    && (forall i: nat, j: nat :: end <= i <= j < |a| ==> At(names, a, i) <= At(names, a, j))
    && (forall i: nat, j: nat :: i < end <= j < |a| ==> At(names, a, i) <= At(names, a, j))
  }

  lemma SettledSwap(names: seq<seq<nat>>, a: seq<nat>, end: nat, i: nat, j: nat)
    requires Settled(names, a, end) && i < end && j < end
    ensures Settled(names, Swapped(a, i, j), end)
  {
    SwapKeeps(names, a, i, j);
    var b := Swapped(a, i, j);
    forall p: nat, q: nat | end <= p <= q < |b|
      ensures At(names, b, p) <= At(names, b, q)
    {
      assert At(names, a, p) <= At(names, a, q);
    }
    forall p: nat, q: nat | p < end <= q < |b|
      ensures At(names, b, p) <= At(names, b, q)
    {
      var p' := if p == i then j else if p == j then i else p;
      assert At(names, a, p') <= At(names, a, q);
    }
  }

  /** Moving the top of the heap to place `last` settles that place. */
  lemma SettleTop(names: seq<seq<nat>>, a: seq<nat>, last: nat)
    requires Heap(names, a, 0, last + 1) && Settled(names, a, last + 1)
    ensures Settled(names, Swapped(a, last, 0), last) && HeapBut(names, Swapped(a, last, 0), 0, last, 0)
  {
    SettledSwap(names, a, last + 1, last, 0);
    SwapKeeps(names, a, last, 0);
    var b := Swapped(a, last, 0);
    forall i: nat | i < last
      ensures At(names, b, i) <= At(names, b, last)
    {
      TopIsLast(names, a, last + 1, if i == 0 then last else i);
    }
    forall i: nat, j: nat | i < last <= j < |b|
      ensures At(names, b, i) <= At(names, b, j)
    {}
    forall p: nat | 0 <= p < last && p != 0
      ensures Dominates(names, b, p, last)
    {
      assert Dominates(names, a, p, last + 1);
    }
  }
}
